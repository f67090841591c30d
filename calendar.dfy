/**
 * Calendar dates as the stop checks use them: java.time.LocalDate in the proleptic
 * Gregorian calendar. The program relies on four of its operations, modelled here:
 * date validity, `isBefore`, `plusYears` and the years component of `Period.between`.
 * Their behaviour is that of the Java class library, which the program imports.
 */
module Calendar {

  datatype Ymd = Ymd(year: int, month: int, day: int)

  predicate IsLeapYear(y: int) {
    y % 4 == 0 && (y % 100 != 0 || y % 400 == 0)
  }

  function DaysInMonth(y: int, m: int): int {
    if m == 2 then (if IsLeapYear(y) then 29 else 28)
    else if m == 4 || m == 6 || m == 9 || m == 11 then 30
    else 31
  }

  predicate ValidDate(d: Ymd) {
    1 <= d.month <= 12 && 1 <= d.day <= DaysInMonth(d.year, d.month)
  }

  /** A date that exists in the calendar, as every LocalDate does. */
  type LocalDate = d: Ymd | ValidDate(d) witness Ymd(2000, 1, 1)

  /**
   * `a.isBefore(b)`: strictly earlier, comparing year, then month, then day. On valid dates
   * this is the order of the day keys, so it is a strict total order.
   */
  predicate IsBefore(a: Ymd, b: Ymd)
    ensures ValidDate(a) && ValidDate(b) ==> (IsBefore(a, b) <==> DayKey(a) < DayKey(b))
  {
    a.year < b.year ||
    (a.year == b.year && (a.month < b.month || (a.month == b.month && a.day < b.day)))
  }

  /** A number that grows with the date: the month count since year 0, then the day within the month. */
  function DayKey(d: Ymd): int {
    ProlepticMonth(d) * 32 + d.day
  }

  /** Strictly earlier in the year, comparing (month, day) only. */
  predicate MonthDayBefore(a: Ymd, b: Ymd) {
    a.month < b.month || (a.month == b.month && a.day < b.day)
  }

  /** The same month and day `n` years later, before any adjustment to the month's length. */
  function Anniversary(d: Ymd, n: int): Ymd {
    Ymd(d.year + n, d.month, d.day)
  }

  /**
   * `d.plusYears(n)`: the year moves by `n`, the month stays, and a day that does not exist
   * in the target month is replaced by the last valid day. For a valid date the only day
   * that can be missing is 29 February in a common year.
   */
  function PlusYears(d: LocalDate, n: int): (r: LocalDate)
    ensures r.year == d.year + n && r.month == d.month
    ensures r.day == if d.month == 2 && d.day == 29 && !IsLeapYear(d.year + n) then 28 else d.day
    ensures !IsBefore(Anniversary(d, n), r)
  {
    var y := d.year + n;
    var last := DaysInMonth(y, d.month);
    Ymd(y, d.month, if d.day <= last then d.day else last)
  }

  /** `d.minusDays(1)`: the latest valid date strictly before `d`. */
  function PreviousDay(d: LocalDate): (r: LocalDate)
    ensures IsBefore(r, d)
    ensures forall x: Ymd :: ValidDate(x) && IsBefore(x, d) ==> !IsBefore(r, x)
  {
    if d.day > 1 then Ymd(d.year, d.month, d.day - 1)
    else if d.month > 1 then Ymd(d.year, d.month - 1, DaysInMonth(d.year, d.month - 1))
    else Ymd(d.year - 1, 12, 31)
  }

  /** The month count since year 0, as `LocalDate.getProlepticMonth`. */
  function ProlepticMonth(d: Ymd): int {
    d.year * 12 + d.month - 1
  }

  /** Java's `/` on integers: the quotient truncated toward zero. */
  function TruncatingDiv(a: int, b: int): int
    requires b > 0
  {
    if a >= 0 then a / b else -((-a) / b)
  }

  /**
   * `Period.between(start, end).years`: whole months between the dates, one fewer when the
   * day of the month has not been reached (or one more when going backwards past it),
   * then divided by twelve with truncation toward zero. From a birth date on or before
   * `end` this is the age in the everyday sense: the difference of the years, less one
   * while the birthday is still ahead that year. A birth date after `end` never gives a
   * positive number of years.
   */
  function PeriodYears(start: LocalDate, end: LocalDate): (years: int)
    ensures !IsBefore(end, start) ==>
      years == end.year - start.year - (if MonthDayBefore(end, start) then 1 else 0)
    ensures IsBefore(end, start) ==> years <= 0
  {
    var totalMonths := ProlepticMonth(end) - ProlepticMonth(start);
    var days := end.day - start.day;
    var months :=
      if totalMonths > 0 && days < 0 then totalMonths - 1
      else if totalMonths < 0 && days > 0 then totalMonths + 1
      else totalMonths;
    TruncatingDiv(months, 12)
  }

  /**
   * An applicant is at least `n` years old (`n >= 1`) exactly when the `n`-th anniversary
   * of the birth date, taken with its own month and day, is not after `today`.
   */
  lemma AgeReachedIff(birth: LocalDate, today: LocalDate, n: int)
    requires n >= 1
    ensures PeriodYears(birth, today) >= n <==> !IsBefore(today, Anniversary(birth, n))
  {
  }

  /**
   * Reaching age `n` means the `n`-th birthday as `plusYears` computes it has come; the
   * two can differ only for a 29 February birth date, where `plusYears` lands on 28 February.
   */
  lemma AgeReachedMilestone(birth: LocalDate, today: LocalDate, n: int)
    requires n >= 1 && PeriodYears(birth, today) >= n
    ensures !IsBefore(today, PlusYears(birth, n))
  {
    AgeReachedIff(birth, today, n);
  }

  /**
   * The converse fails for a 29 February birth date in a common year: on 28 February 2021
   * `plusYears(21)` of 29 February 2000 has arrived, but the period counts only 20 years.
   */
  lemma LeapDayBirthdayLags()
    ensures PlusYears(Ymd(2000, 2, 29), 21) == Ymd(2021, 2, 28)
    ensures PeriodYears(Ymd(2000, 2, 29), Ymd(2021, 2, 28)) == 20
  {
  }

  /** Later milestones fall strictly later: the `m`-th birthday precedes the `n`-th when m < n. */
  lemma MilestonesOrdered(birth: LocalDate, m: int, n: int)
    requires m < n
    ensures IsBefore(PlusYears(birth, m), PlusYears(birth, n))
  {
  }
}
