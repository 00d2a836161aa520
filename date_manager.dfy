/** DateManager: the "MM/dd/yy" display strings, the two sentinel dates, day stepping,
    and the Sunday-to-Saturday week and inclusive day ranges used by the scheduling views. */
module DateManager {
  import opened Base
  import opened Calendar

  /** 9999-12-31: a job on indefinite hold. */
  const HOLD_DATE: Day := EpochDay(CivilDate(9999, 12, 31))
  /** 9999-12-30: a job waiting for proofs. */
  const PROOF_DATE: Day := EpochDay(CivilDate(9999, 12, 30))

  // ---------------------------------------------------------------------------
  // The "MM/dd/yy" pattern as java.time reads and writes it: fixed-width ASCII
  // digit pairs, '/' separators, nothing else in the string.

  predicate IsDigit(ch: char) {
    '0' <= ch <= '9'
  }

  function DigitValue(ch: char): int
    requires IsDigit(ch)
  {
    ch as int - '0' as int
  }

  function DigitChar(v: int): char
    requires 0 <= v <= 9
  {
    ('0' as int + v) as char
  }

  /** The value of a two-digit field. */
  function PairValue(hi: char, lo: char): (v: int)
    requires IsDigit(hi) && IsDigit(lo)
    ensures 0 <= v <= 99
  {
    10 * DigitValue(hi) + DigitValue(lo)
  }

  /** A zero-padded two-digit field. */
  function TwoDigits(v: int): (s: string)
    requires 0 <= v <= 99
    ensures |s| == 2 && IsDigit(s[0]) && IsDigit(s[1]) && PairValue(s[0], s[1]) == v
  {
    [DigitChar(v / 10), DigitChar(v % 10)]
  }

  lemma TwoDigitsOfPair(hi: char, lo: char)
    requires IsDigit(hi) && IsDigit(lo)
    ensures TwoDigits(PairValue(hi, lo)) == [hi, lo]
  {
  }

  /** The shape of the pattern: dd/dd/dd. */
  predicate MatchesPattern(s: string) {
    |s| == 8 && IsDigit(s[0]) && IsDigit(s[1]) && s[2] == '/'
    && IsDigit(s[3]) && IsDigit(s[4]) && s[5] == '/' && IsDigit(s[6]) && IsDigit(s[7])
  }

  function MonthField(s: string): int requires MatchesPattern(s) { PairValue(s[0], s[1]) }
  function DayField(s: string): int requires MatchesPattern(s) { PairValue(s[3], s[4]) }
  /** "yy" reads back as a year of 2000-2099. */
  function YearField(s: string): int requires MatchesPattern(s) { 2000 + PairValue(s[6], s[7]) }

  /** A string the parser accepts: month 1-12 and day-of-month 1-31. */
  predicate Parsable(s: string) {
    MatchesPattern(s) && 1 <= MonthField(s) <= 12 && 1 <= DayField(s) <= 31
  }

  /** A string naming a real calendar day, so that nothing is adjusted when it is read. */
  predicate IsCalendarString(s: string) {
    Parsable(s) && DayField(s) <= MonthLength(YearField(s), MonthField(s))
  }

  /** The date a well-formed string names. */
  function FieldsOf(s: string): (c: CivilDate)
    requires IsCalendarString(s)
    ensures Valid(c)
  {
    CivilDate(YearField(s), MonthField(s), DayField(s))
  }

  /** "yy" prints the year of era modulo 100 (years before 1 count backwards from 1 BCE). */
  function YearOfEra(y: int): (e: int)
    ensures e >= 1
  {
    if y >= 1 then y else 1 - y
  }

  /** The display string of a date given by its fields. */
  function Show(c: CivilDate): (s: string)
    requires Valid(c)
    ensures MatchesPattern(s) && MonthField(s) == c.month && DayField(s) == c.day
    ensures YearField(s) == 2000 + YearOfEra(c.year) % 100
  {
    TwoDigits(c.month) + "/" + TwoDigits(c.day) + "/" + TwoDigits(YearOfEra(c.year) % 100)
  }

  /** The date a parsable string resolves to under java.time's default SMART resolver:
      a day-of-month past the end of the month is moved back to the month's last day. */
  function Resolved(s: string): (c: CivilDate)
    requires Parsable(s)
    ensures Valid(c) && c.year == YearField(s) && c.month == MonthField(s)
    ensures c.day <= DayField(s) && (c.day == DayField(s) <==> DayField(s) <= MonthLength(c.year, c.month))
    ensures DayField(s) > MonthLength(c.year, c.month) ==> c.day == MonthLength(c.year, c.month)
  {
    var y, m, d := YearField(s), MonthField(s), DayField(s);
    CivilDate(y, m, if d <= MonthLength(y, m) then d else MonthLength(y, m))
  }

  /** LocalDate.parse(s, "MM/dd/yy"): the resolved date, or a parse error. */
  function ParseDisplay(s: string): (r: Result<Day>)
    ensures r.Ok? <==> Parsable(s)
    ensures r.Err? ==> r.error == DateTimeParseError
    ensures r.Ok? ==> r.value == EpochDay(Resolved(s))
  {
    if !Parsable(s) then Err(DateTimeParseError)
    else Ok(EpochDay(Resolved(s)))
  }

  /** getLocalDate: the two sentinel literals first, then the display pattern. */
  function GetLocalDate(dateStr: string): (r: Result<Day>)
    ensures dateStr == "On Hold" ==> r == Ok(HOLD_DATE)
    ensures dateStr == "Proofs" ==> r == Ok(PROOF_DATE)
    ensures r.Ok? <==> dateStr == "On Hold" || dateStr == "Proofs" || Parsable(dateStr)
    ensures IsCalendarString(dateStr) ==> r == Ok(EpochDay(FieldsOf(dateStr)))
  {
    if dateStr == "On Hold" then Ok(HOLD_DATE)
    else if dateStr == "Proofs" then Ok(PROOF_DATE)
    else ParseDisplay(dateStr)
  }

  /** getDisplayDate(LocalDate): format with "MM/dd/yy". */
  function GetDisplayDate(date: Day): (s: string)
    ensures MatchesPattern(s) && 1 <= MonthField(s) <= 12 && 1 <= DayField(s) <= 31
    ensures MonthField(s) == ToCivil(date).month && DayField(s) == ToCivil(date).day
    ensures YearField(s) == 2000 + YearOfEra(ToCivil(date).year) % 100
  {
    Show(ToCivil(date))
  }

  /** getNextDay: parse, add one day, format. */
  function GetNextDay(oldDateStr: string): (r: Result<string>)
    ensures r.Ok? <==> GetLocalDate(oldDateStr).Ok?
    ensures r.Err? ==> r.error == DateTimeParseError
  {
    match GetLocalDate(oldDateStr)
    case Ok(d) => Ok(GetDisplayDate(d + 1))
    case Err(e) => Err(e)
  }

  /** getPreviousDay: parse, subtract one day, format. */
  function GetPreviousDay(oldDateStr: string): (r: Result<string>)
    ensures r.Ok? <==> GetLocalDate(oldDateStr).Ok?
    ensures r.Err? ==> r.error == DateTimeParseError
  {
    match GetLocalDate(oldDateStr)
    case Ok(d) => Ok(GetDisplayDate(d - 1))
    case Err(e) => Err(e)
  }

  // ---------------------------------------------------------------------------
  // Round trips between strings and dates.

  /** A parsed string names the date its fields give, after the resolver's adjustment. */
  lemma ParsedFields(s: string)
    requires Parsable(s)
    ensures ToCivil(GetLocalDate(s).value) == Resolved(s)
  {
    EpochDayToCivil(Resolved(s));
  }

  /** Formatting then parsing gives back any date of 2000-2099. */
  lemma ShowThenParse(c: CivilDate)
    requires Valid(c) && 2000 <= c.year <= 2099
    ensures IsCalendarString(Show(c)) && FieldsOf(Show(c)) == c
    ensures GetLocalDate(Show(c)) == Ok(EpochDay(c))
  {
  }

  /** The fields of a well-formed string print back as that string. */
  lemma ShowFieldsOf(s: string)
    requires IsCalendarString(s)
    ensures Show(FieldsOf(s)) == s
  {
    var c := FieldsOf(s);
    TwoDigitsOfPair(s[0], s[1]);
    TwoDigitsOfPair(s[3], s[4]);
    TwoDigitsOfPair(s[6], s[7]);
    assert YearOfEra(c.year) % 100 == PairValue(s[6], s[7]);
    assert s == [s[0], s[1]] + "/" + [s[3], s[4]] + "/" + [s[6], s[7]];
  }

  /** The display string of a day is that of the date it names. */
  lemma DisplayOfDay(n: Day, c: CivilDate)
    requires Valid(c) && EpochDay(c) == n
    ensures GetDisplayDate(n) == Show(c)
  {
    EpochDayToCivil(c);
  }

  /** Dates with the same month, day and two-digit year print alike. */
  lemma SameDisplay(c: CivilDate, d: CivilDate)
    requires Valid(c) && Valid(d) && c.month == d.month && c.day == d.day
    requires YearOfEra(c.year) % 100 == YearOfEra(d.year) % 100
    ensures Show(c) == Show(d)
  {
  }

  /** A well-formed display string survives parsing and formatting unchanged. */
  lemma {:induction false} ParseThenFormat(s: string)
    requires IsCalendarString(s)
    ensures GetLocalDate(s).Ok? && GetDisplayDate(GetLocalDate(s).value) == s
  {
    DisplayOfDay(GetLocalDate(s).value, FieldsOf(s));
    ShowFieldsOf(s);
  }

  /** Formatting then parsing is the identity on the days of 2000-2099. */
  lemma {:induction false} FormatThenParse(date: Day)
    requires 2000 <= ToCivil(date).year <= 2099
    ensures GetLocalDate(GetDisplayDate(date)) == Ok(date)
  {
    ShowThenParse(ToCivil(date));
  }

  /** A day prints as `str` when its date prints like the date `d` of 2000-2099, and `str`
      then reads back as `d`. */
  lemma DisplayedAs(n: Day, c: CivilDate, d: CivilDate, str: string)
    requires Valid(c) && EpochDay(c) == n && Valid(d) && 2000 <= d.year <= 2099
    requires c.month == d.month && c.day == d.day && YearOfEra(c.year) % 100 == YearOfEra(d.year) % 100
    requires Show(d) == str
    ensures GetDisplayDate(n) == str && GetLocalDate(str) == Ok(EpochDay(d))
  {
    DisplayOfDay(n, c);
    SameDisplay(c, d);
    ShowThenParse(d);
  }

  /** The sentinels do not survive formatting: HOLD_DATE prints as "12/31/99",
      and that string reads back as 2099-12-31, not as HOLD_DATE. */
  lemma {:induction false} HoldDateDoesNotRoundTrip()
    ensures GetDisplayDate(HOLD_DATE) == "12/31/99"
    ensures GetLocalDate("12/31/99") == Ok(EpochDay(CivilDate(2099, 12, 31)))
    ensures GetLocalDate(GetDisplayDate(HOLD_DATE)) != Ok(HOLD_DATE)
  {
    DisplayedAs(HOLD_DATE, CivilDate(9999, 12, 31), CivilDate(2099, 12, 31), "12/31/99");
  }

  /** Likewise PROOF_DATE prints as "12/30/99", which reads back as 2099-12-30. */
  lemma {:induction false} ProofDateDoesNotRoundTrip()
    ensures GetDisplayDate(PROOF_DATE) == "12/30/99"
    ensures GetLocalDate("12/30/99") == Ok(EpochDay(CivilDate(2099, 12, 30)))
    ensures GetLocalDate(GetDisplayDate(PROOF_DATE)) != Ok(PROOF_DATE)
  {
    DisplayedAs(PROOF_DATE, CivilDate(9999, 12, 30), CivilDate(2099, 12, 30), "12/30/99");
  }

  /** "02/30/16" passes the parser and resolves to 2016-02-29. */
  lemma OverlongDayParses()
    ensures GetLocalDate("02/30/16") == Ok(EpochDay(CivilDate(2016, 2, 29)))
  {
    assert Parsable("02/30/16") && Resolved("02/30/16") == CivilDate(2016, 2, 29);
  }

  /** A day-of-month past the month's end is accepted and moved back, so such a
      string is not reproduced by formatting: "02/30/16" reads as 2016-02-29. */
  lemma {:induction false} OverlongDayIsAdjusted()
    ensures GetLocalDate("02/30/16") == Ok(EpochDay(CivilDate(2016, 2, 29)))
    ensures GetDisplayDate(GetLocalDate("02/30/16").value) == "02/29/16"
  {
    var leapDay := CivilDate(2016, 2, 29);
    OverlongDayParses();
    DisplayedAs(GetLocalDate("02/30/16").value, leapDay, leapDay, "02/29/16");
  }

  /** getNextDay and getPreviousDay on a string naming date `c` print the neighbouring dates. */
  lemma NeighbourDisplays(s: string, c: CivilDate)
    requires Valid(c) && GetLocalDate(s) == Ok(EpochDay(c))
    ensures GetNextDay(s) == Ok(Show(Tomorrow(c)))
    ensures GetPreviousDay(s) == Ok(Show(Yesterday(c)))
  {
    TomorrowIsNextDay(c);
    YesterdayIsPreviousDay(c);
    DisplayOfDay(GetLocalDate(s).value + 1, Tomorrow(c));
    DisplayOfDay(GetLocalDate(s).value - 1, Yesterday(c));
  }

  /** A string printed for a date `d` of 2000-2099 steps back to the string of the day before `d`
      and on to the string of the day after `d`. */
  lemma StepsFromShown(u: string, d: CivilDate)
    requires Valid(d) && 2000 <= d.year <= 2099 && Show(d) == u
    ensures GetPreviousDay(u) == Ok(Show(Yesterday(d)))
    ensures GetNextDay(u) == Ok(Show(Tomorrow(d)))
  {
    ShowThenParse(d);
    NeighbourDisplays(u, d);
  }

  /** Away from the century wrap, the display string of the day after (or before) `s`
      steps back (or on) to `s`. */
  lemma StepBackWithinCentury(s: string, t: CivilDate)
    requires IsCalendarString(s) && Valid(t) && 2000 <= t.year <= 2099
    requires Yesterday(t) == FieldsOf(s)
    ensures GetPreviousDay(Show(t)) == Ok(s)
  {
    ShowFieldsOf(s);
    StepsFromShown(Show(t), t);
  }

  lemma StepOnWithinCentury(s: string, t: CivilDate)
    requires IsCalendarString(s) && Valid(t) && 2000 <= t.year <= 2099
    requires Tomorrow(t) == FieldsOf(s)
    ensures GetNextDay(Show(t)) == Ok(s)
  {
    ShowFieldsOf(s);
    StepsFromShown(Show(t), t);
  }

  /** At the century wrap, 2099-12-31 steps to 2100-01-01, which prints as "01/01/00",
      reads as 2000-01-01 and steps back to 1999-12-31, printed "12/31/99" again. */
  lemma StepBackAtCentury(s: string, t: CivilDate)
    requires IsCalendarString(s) && Valid(t) && t == Tomorrow(FieldsOf(s)) && t.year > 2099
    ensures GetPreviousDay(Show(t)) == Ok(s)
  {
    var c := FieldsOf(s);
    ForwardIntoNewYear(c);
    var first := CivilDate(t.year - 100, 1, 1);
    SameDisplay(t, first);
    BackIntoOldYear(first);
    SameDisplay(Yesterday(first), c);
    ShowFieldsOf(s);
    StepsFromShown(Show(t), first);
  }

  /** At the century wrap, 2000-01-01 steps back to 1999-12-31, which prints as "12/31/99",
      reads as 2099-12-31 and steps on to 2100-01-01, printed "01/01/00" again. */
  lemma StepOnAtCentury(s: string, t: CivilDate)
    requires IsCalendarString(s) && Valid(t) && t == Yesterday(FieldsOf(s)) && t.year < 2000
    ensures GetNextDay(Show(t)) == Ok(s)
  {
    var c := FieldsOf(s);
    BackIntoOldYear(c);
    var last := CivilDate(t.year + 100, 12, 31);
    SameDisplay(t, last);
    ForwardIntoNewYear(last);
    SameDisplay(Tomorrow(last), c);
    ShowFieldsOf(s);
    StepsFromShown(Show(t), last);
  }

  /** Stepping forward then back returns the same display string, across the century wrap too. */
  lemma {:induction false} NextThenPrevious(s: string)
    requires IsCalendarString(s)
    ensures GetNextDay(s).Ok?
    ensures GetPreviousDay(GetNextDay(s).value) == Ok(s)
  {
    var c := FieldsOf(s);
    var t := Tomorrow(c);
    NeighbourDisplays(s, c);
    StepsUndo(c);
    if t.year <= 2099 {
      StepBackWithinCentury(s, t);
    } else {
      StepBackAtCentury(s, t);
    }
  }

  /** Stepping back then forward returns the same display string, across the century wrap too. */
  lemma {:induction false} PreviousThenNext(s: string)
    requires IsCalendarString(s)
    ensures GetPreviousDay(s).Ok?
    ensures GetNextDay(GetPreviousDay(s).value) == Ok(s)
  {
    var c := FieldsOf(s);
    var t := Yesterday(c);
    NeighbourDisplays(s, c);
    StepsUndo(c);
    if t.year >= 2000 {
      StepOnWithinCentury(s, t);
    } else {
      StepOnAtCentury(s, t);
    }
  }

  // ---------------------------------------------------------------------------
  // Weeks and ranges.

  /** Days back from `date` to the Sunday starting its week: Sunday (7) counts as 0. */
  function WeekDelta(date: Day): (delta: int)
    ensures 0 <= delta <= 6
    ensures DayOfWeek(date - delta) == 7
  {
    if DayOfWeek(date) == 7 then 0 else DayOfWeek(date)
  }

  /** The Sunday on which the week of `date` begins. */
  function WeekStart(date: Day): (sunday: Day)
    ensures DayOfWeek(sunday) == 7 && sunday <= date <= sunday + 6
  {
    date - WeekDelta(date)
  }

  /** The Sunday-to-Saturday week of a date is the only such week containing it. */
  lemma WeekStartUnique(date: Day, sunday: Day)
    requires DayOfWeek(sunday) == 7 && sunday <= date <= sunday + 6
    ensures sunday == WeekStart(date)
  {
  }

  /** getWeek: the first and last day of the week containing `date`. */
  method GetWeek(date: Day) returns (week: array<Day>)
    ensures fresh(week)
    ensures week.Length == 2
    ensures week[0] == WeekStart(date) && week[1] == week[0] + 6
    ensures DayOfWeek(week[0]) == 7 && week[0] <= date <= week[1]
  {
    week := new Day[2];
    var delta := if DayOfWeek(date) == 7 then 0 else DayOfWeek(date);
    var d := date - delta;
    for i := 0 to 2
      invariant d == date - delta + 6 * i
      invariant forall k :: 0 <= k < i ==> week[k] == date - delta + 6 * k
    {
      week[i] := d;
      d := d + 6;
    }
  }

  /** getFullWeek: the seven days, Sunday to Saturday, of the week containing `date`. */
  method GetFullWeek(date: Day) returns (week: array<Day>)
    ensures fresh(week)
    ensures week.Length == 7
    ensures week[0] == WeekStart(date) && DayOfWeek(week[0]) == 7
    ensures forall k :: 0 < k < 7 ==> week[k] == week[k - 1] + 1
    ensures exists k :: 0 <= k < 7 && week[k] == date
  {
    week := new Day[7];
    var delta := if DayOfWeek(date) == 7 then 0 else DayOfWeek(date);
    var d := date - delta;
    for i := 0 to 7
      invariant d == date - delta + i
      invariant forall k :: 0 <= k < i ==> week[k] == date - delta + k
    {
      week[i] := d;
      d := d + 1;
    }
    assert week[delta] == date;
  }

  /** getDateRange: every day from `startDate` to `endDate` inclusive; empty when the end comes first. */
  method GetDateRange(startDate: Day, endDate: Day) returns (dates: seq<Day>)
    ensures |dates| == if startDate <= endDate then endDate - startDate + 1 else 0
    ensures forall k :: 0 <= k < |dates| ==> dates[k] == startDate + k
    ensures forall d :: d in dates <==> startDate <= d <= endDate
  {
    dates := [];
    var days := endDate - startDate;
    var i := 0;
    while i <= days
      invariant 0 <= i <= if days < 0 then 0 else days + 1
      invariant |dates| == i
      invariant forall k :: 0 <= k < i ==> dates[k] == startDate + k
    {
      dates := dates + [startDate + i];
      i := i + 1;
    }
    forall d | startDate <= d <= endDate
      ensures d in dates
    {
      assert dates[d - startDate] == d;
    }
  }

  /** The static comparison fields and "today" of DateManager. `today` is LocalDate.now()
      at class initialisation, passed in from outside. */
  class Comparators {
    var holdDateComparator: Day
    var proofDateComparator: Day
    const today: Day

    constructor (today: Day)
      ensures this.today == today
      ensures holdDateComparator == today && proofDateComparator == today
    {
      this.today := today;
      holdDateComparator := today;
      proofDateComparator := today;
    }

    /** isOnHoldDate: stores the argument in holdDateComparator and compares it with HOLD_DATE. */
    method IsOnHoldDate(sqlDate: Day) returns (onHold: bool)
      modifies this`holdDateComparator
      ensures holdDateComparator == sqlDate
      ensures onHold <==> sqlDate == HOLD_DATE
    {
      holdDateComparator := sqlDate;
      onHold := holdDateComparator == HOLD_DATE;
    }

    /** isProofingDate: stores the argument in proofDateComparator and compares it with PROOF_DATE. */
    method IsProofingDate(sqlDate: Day) returns (proofing: bool)
      modifies this`proofDateComparator
      ensures proofDateComparator == sqlDate
      ensures proofing <==> sqlDate == PROOF_DATE
    {
      proofDateComparator := sqlDate;
      proofing := proofDateComparator == PROOF_DATE;
    }
  }

  /** The two sentinels are consecutive days, so no date is both on hold and in proofing,
      and both lie after every date a display string can name. */
  lemma {:induction false} SentinelsDistinct(s: string)
    requires Parsable(s)
    ensures HOLD_DATE == PROOF_DATE + 1
    ensures GetLocalDate(s).value < PROOF_DATE < HOLD_DATE
  {
    var c := Resolved(s);
    WithinYear(c);
    YearsIncrease(c.year, 9999);
    MonthStep(9999, 12);
  }
}
