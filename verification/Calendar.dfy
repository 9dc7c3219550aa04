/** Civil dates and day numbers (crates/mp-model/src/datetime.rs). */
module Calendar {

  predicate IsLeapYear(year: int) {
    year % 4 == 0 && (year % 100 != 0 || year % 400 == 0)
  }

  function DaysInMonth(year: int, month: nat): nat {
    match month
    case 1 | 3 | 5 | 7 | 8 | 10 | 12 => 31
    case 4 | 6 | 9 | 11 => 30
    case 2 => if IsLeapYear(year) then 29 else 28
    case _ => 0
  }

  datatype Date = Date(year: int, month: nat, day: nat) {
    predicate Valid() {
      1 <= month <= 12 && 1 <= day <= DaysInMonth(year, month)
    }
  }

  /** Division of the program's integers: towards zero. */
  function TruncDiv(a: int, b: nat): int
    requires b > 0
  {
    if a >= 0 then a / b else -((-a) / b)
  }

  /** days_from_civil. The `nat` types stand for the program's unsigned ones: that the
      function is well-formed says that no unsigned subtraction underflows. */
  function DaysFromCivil(date: Date): int
    requires date.Valid()
  {
    var year := if date.month <= 2 then date.year - 1 else date.year;
    var era := TruncDiv(if year >= 0 then year else year - 399, 400);
    var yearOfEra: nat := year - era * 400;
    var shiftedMonth: nat := if date.month > 2 then date.month - 3 else date.month + 9;
    var dayOfYear: nat := (153 * shiftedMonth + 2) / 5 + date.day - 1;
    var dayOfEra: nat := yearOfEra * 365 + yearOfEra / 4 - yearOfEra / 100 + dayOfYear;
    era * 146_097 + dayOfEra - 719_468
  }

  // ---------- Counting days one year and one month at a time ----------

  function YearLength(year: int): nat {
    if IsLeapYear(year) then 366 else 365
  }

  /** The days from the first of January of year 0 to that of `year`. */
  function DaysBeforeYear(year: int): int
    decreases if year < 0 then -year else year
  {
    if year == 0 then 0
    else if year > 0 then DaysBeforeYear(year - 1) + YearLength(year - 1)
    else DaysBeforeYear(year + 1) - YearLength(year)
  }

  function DaysBeforeMonth(year: int, month: nat): nat
    requires 1 <= month <= 13
  {
    if month == 1 then 0 else DaysBeforeMonth(year, month - 1) + DaysInMonth(year, month - 1)
  }

  /** The days counted from 1970-01-01 to `date`. */
  function DayNumber(date: Date): int
    requires date.Valid()
  {
    DaysBeforeYear(date.year) - DaysBeforeYear(1970) + DaysBeforeMonth(date.year, date.month) + date.day - 1
  }

  /** The leap years up to and including `year`, counted from year 1; negative before that. */
  function LeapYearsUpTo(year: int): int {
    year / 4 - year / 100 + year / 400
  }

  lemma QuotientStep4(y: int)
    ensures y / 4 == (y - 1) / 4 + if y % 4 == 0 then 1 else 0
  {}

  lemma QuotientStep100(y: int)
    ensures y / 100 == (y - 1) / 100 + if y % 100 == 0 then 1 else 0
  {}

  lemma QuotientStep400(y: int)
    ensures y / 400 == (y - 1) / 400 + if y % 400 == 0 then 1 else 0
  {}

  lemma MultipleOf(k: int, d: int)
    requires d == 4 || d == 100
    ensures (k * d) % d == 0
  {}

  lemma Multiples(y: int)
    ensures y % 100 == 0 ==> y % 4 == 0
    ensures y % 400 == 0 ==> y % 100 == 0
  {
    if y % 100 == 0 {
      MultipleOf(25 * (y / 100), 4);
    }
    if y % 400 == 0 {
      MultipleOf(4 * (y / 400), 100);
    }
  }

  lemma LeapYearCounts(year: int)
    ensures LeapYearsUpTo(year) == LeapYearsUpTo(year - 1) + if IsLeapYear(year) then 1 else 0
  {
    QuotientStep4(year);
    QuotientStep100(year);
    QuotientStep400(year);
    Multiples(year);
  }

  lemma {:induction false} DaysBeforeYearClosed(year: int)
    ensures DaysBeforeYear(year) == 365 * year + LeapYearsUpTo(year - 1) + 1
    decreases if year < 0 then -year else year
  {
    if year > 0 {
      DaysBeforeYearClosed(year - 1);
      LeapYearCounts(year - 1);
    } else if year < 0 {
      DaysBeforeYearClosed(year + 1);
      LeapYearCounts(year);
    }
  }

  lemma YearStep(year: int)
    ensures DaysBeforeYear(year + 1) == DaysBeforeYear(year) + YearLength(year)
  {}

  lemma MonthsOfYear(year: int)
    ensures DaysBeforeMonth(year, 1) == 0 && DaysBeforeMonth(year, 2) == 31
    ensures var leap := if IsLeapYear(year) then 1 else 0;
      && DaysBeforeMonth(year, 3) == 59 + leap && DaysBeforeMonth(year, 4) == 90 + leap
      && DaysBeforeMonth(year, 5) == 120 + leap && DaysBeforeMonth(year, 6) == 151 + leap
      && DaysBeforeMonth(year, 7) == 181 + leap && DaysBeforeMonth(year, 8) == 212 + leap
      && DaysBeforeMonth(year, 9) == 243 + leap && DaysBeforeMonth(year, 10) == 273 + leap
      && DaysBeforeMonth(year, 11) == 304 + leap && DaysBeforeMonth(year, 12) == 334 + leap
      && DaysBeforeMonth(year, 13) == 365 + leap == YearLength(year)
  {
    assert DaysBeforeMonth(year, 3) == DaysBeforeMonth(year, 2) + DaysInMonth(year, 2);
    assert DaysBeforeMonth(year, 5) == DaysBeforeMonth(year, 4) + 30;
    assert DaysBeforeMonth(year, 7) == DaysBeforeMonth(year, 6) + 30;
    assert DaysBeforeMonth(year, 9) == DaysBeforeMonth(year, 8) + 31;
    assert DaysBeforeMonth(year, 11) == DaysBeforeMonth(year, 10) + 31;
  }

  /** Eras of 400 years, split as the program splits them. */
  lemma EraSplit(year: int)
    ensures var era := TruncDiv(if year >= 0 then year else year - 399, 400);
      var yoe := year - era * 400;
      era == year / 400 && 0 <= yoe < 400 &&
      era * 146_097 + yoe * 365 + yoe / 4 - yoe / 100 == 365 * year + LeapYearsUpTo(year)
  {
    var era, yoe := year / 400, year % 400;
    assert year == 400 * era + yoe;
    EraQuotients(era, yoe);
    if year < 0 {
      assert -((399 - year) / 400) == year / 400;
    }
  }

  lemma EraQuotients(era: int, yoe: nat)
    requires yoe < 400
    ensures (400 * era + yoe) / 4 == 100 * era + yoe / 4
    ensures (400 * era + yoe) / 100 == 4 * era + yoe / 100
  {}

  /** The program counts months from March; its table agrees with the months' lengths. */
  lemma MonthTable(year: int, month: nat)
    requires 1 <= month <= 12
    ensures month <= 2 ==> (153 * (month + 9) + 2) / 5 == 306 + DaysBeforeMonth(year, month)
    ensures month > 2 ==>
      (153 * (month - 3) + 2) / 5 + 59 + (if IsLeapYear(year) then 1 else 0) == DaysBeforeMonth(year, month)
  {
    MonthsOfYear(year);
  }

  /** The day number with the year counted from March and the eras multiplied out. */
  function MarchFormula(date: Date): int
    requires date.Valid()
  {
    var year := if date.month <= 2 then date.year - 1 else date.year;
    var shiftedMonth := if date.month > 2 then date.month - 3 else date.month + 9;
    365 * year + LeapYearsUpTo(year) + (153 * shiftedMonth + 2) / 5 + date.day - 719_469
  }

  lemma CivilIsMarchFormula(date: Date)
    requires date.Valid()
    ensures DaysFromCivil(date) == MarchFormula(date)
  {
    EraSplit(if date.month <= 2 then date.year - 1 else date.year);
  }

  lemma EpochYear()
    ensures DaysBeforeYear(1970) == 719_528
  {
    DaysBeforeYearClosed(1970);
  }

  lemma MarchFormulaIsCounted(date: Date)
    requires date.Valid()
    ensures MarchFormula(date) == DayNumber(date)
  {
    MonthTable(date.year, date.month);
    DaysBeforeYearClosed(date.year);
    EpochYear();
    LeapYearCounts(date.year);
  }

  /** The program's closed formula is the counted number of days, for every year. */
  lemma CivilIsCounted(date: Date)
    requires date.Valid()
    ensures DaysFromCivil(date) == DayNumber(date)
  {
    CivilIsMarchFormula(date);
    MarchFormulaIsCounted(date);
  }

  // ---------- The calendar successor ----------

  function NextDay(date: Date): (r: Date)
    requires date.Valid()
    ensures r.Valid()
  {
    if date.day < DaysInMonth(date.year, date.month) then date.(day := date.day + 1)
    else if date.month < 12 then Date(date.year, date.month + 1, 1)
    else Date(date.year + 1, 1, 1)
  }

  function PreviousDay(date: Date): (r: Date)
    requires date.Valid()
    ensures r.Valid() && NextDay(r) == date
  {
    if date.day > 1 then date.(day := date.day - 1)
    else if date.month > 1 then Date(date.year, date.month - 1, DaysInMonth(date.year, date.month - 1))
    else Date(date.year - 1, 12, 31)
  }

  lemma EpochIsDayZero()
    ensures DaysFromCivil(Date(1970, 1, 1)) == 0
  {
    CivilIsCounted(Date(1970, 1, 1));
  }

  lemma NextDayCounted(date: Date)
    requires date.Valid()
    ensures DayNumber(NextDay(date)) == DayNumber(date) + 1
  {
    MonthsOfYear(date.year);
    YearStep(date.year);
  }

  /** Each day is one more than the day before, across months, leap days, centuries and year 0. */
  lemma NextDayCountsOne(date: Date)
    requires date.Valid()
    ensures DaysFromCivil(NextDay(date)) == DaysFromCivil(date) + 1
  {
    CivilIsCounted(date);
    CivilIsCounted(NextDay(date));
    NextDayCounted(date);
  }

  predicate Earlier(a: Date, b: Date) {
    a.year < b.year || (a.year == b.year && (a.month < b.month || (a.month == b.month && a.day < b.day)))
  }

  lemma {:induction false} MonthsAscend(year: int, m: nat, n: nat)
    requires 1 <= m <= n <= 13
    ensures DaysBeforeMonth(year, m) <= DaysBeforeMonth(year, n)
    decreases n - m
  {
    if m < n {
      MonthsAscend(year, m, n - 1);
    }
  }

  lemma {:induction false} YearsAscend(a: int, b: int)
    requires a <= b
    ensures DaysBeforeYear(a) <= DaysBeforeYear(b)
    decreases b - a
  {
    if a < b {
      YearsAscend(a, b - 1);
      YearStep(b - 1);
    }
  }

  lemma DayWithinYear(date: Date)
    requires date.Valid()
    ensures DaysBeforeMonth(date.year, date.month) + date.day <= YearLength(date.year)
  {
    MonthsAscend(date.year, date.month + 1, 13);
    MonthsOfYear(date.year);
  }

  const YEAR_0000 := -719_528
  const YEAR_10000 := 2_932_897

  lemma FourDigitBounds()
    ensures DaysBeforeYear(0) - DaysBeforeYear(1970) == YEAR_0000
    ensures DaysBeforeYear(10_000) - DaysBeforeYear(1970) == YEAR_10000
  {
    EpochYear();
    DaysBeforeYearClosed(10_000);
  }

  lemma DayBetweenYears(date: Date)
    requires date.Valid()
    ensures DaysBeforeYear(date.year) <= DayNumber(date) + DaysBeforeYear(1970) < DaysBeforeYear(date.year + 1)
  {
    DayWithinYear(date);
    YearStep(date.year);
    MonthsAscend(date.year, 1, date.month);
  }

  /** The day numbers of the years that four digits can write. */
  lemma FourDigitYears(date: Date)
    requires date.Valid()
    ensures 0 <= date.year <= 9999 <==> YEAR_0000 <= DayNumber(date) < YEAR_10000
  {
    FourDigitBounds();
    DayBetweenYears(date);
    if date.year < 0 {
      YearsAscend(date.year + 1, 0);
    } else if date.year > 9999 {
      YearsAscend(10_000, date.year);
    } else {
      YearsAscend(0, date.year);
      YearsAscend(date.year + 1, 10_000);
    }
  }

  lemma EarlierIsCountedLess(a: Date, b: Date)
    requires a.Valid() && b.Valid() && Earlier(a, b)
    ensures DayNumber(a) < DayNumber(b)
  {
    if a.year < b.year {
      DayWithinYear(a);
      YearStep(a.year);
      YearsAscend(a.year + 1, b.year);
    } else if a.month < b.month {
      MonthsAscend(a.year, a.month + 1, b.month);
    }
  }

  /** Day numbers order dates strictly, so that no two dates share one. */
  lemma EarlierIsLess(a: Date, b: Date)
    requires a.Valid() && b.Valid() && Earlier(a, b)
    ensures DaysFromCivil(a) < DaysFromCivil(b)
  {
    CivilIsCounted(a);
    CivilIsCounted(b);
    EarlierIsCountedLess(a, b);
  }

  /** Every integer is the number of a day. */
  lemma {:induction false} EveryDayHasDate(n: int) returns (date: Date)
    ensures date.Valid() && DaysFromCivil(date) == n
    decreases if n < 0 then -n else n
  {
    if n == 0 {
      date := Date(1970, 1, 1);
      EpochIsDayZero();
    } else if n > 0 {
      var before := EveryDayHasDate(n - 1);
      NextDayCountsOne(before);
      date := NextDay(before);
    } else {
      var after := EveryDayHasDate(n + 1);
      date := PreviousDay(after);
      NextDayCountsOne(date);
    }
  }
}
