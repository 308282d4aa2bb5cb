/** The proleptic Gregorian calendar: dates, the day after a date, and a day
    number that turns the order of dates and the addition of days into integer arithmetic.
 */
module Calendar {
  import opened Text

  datatype Date = Date(year: int, month: nat, day: nat)

  predicate IsLeap(year: int) {
    year % 4 == 0 && (year % 100 != 0 || year % 400 == 0)
  }

  function DaysInMonth(year: int, month: nat): nat
    requires 1 <= month <= 12
  {
    if month == 2 then (if IsLeap(year) then 29 else 28)
    else if month == 4 || month == 6 || month == 9 || month == 11 then 30
    else 31
  }

  /** Months alternate between 31 and 30 days, starting with 31 in January and again in August; February
      has 28 days, and 29 in leap years. */
  lemma MonthLengths(year: int, month: nat)
    requires 1 <= month <= 12
    ensures month != 2 ==> DaysInMonth(year, month) == 30 + (if month <= 7 then month else month - 7) % 2
    ensures month == 2 ==> DaysInMonth(year, month) == 28 + if IsLeap(year) then 1 else 0
  {
  }

  predicate IsReal(year: int, month: nat, day: nat) {
    1 <= month <= 12 && 1 <= day <= DaysInMonth(year, month)
  }

  predicate Valid(d: Date) {
    IsReal(d.year, d.month, d.day)
  }

  /** The years that chrono's `NaiveDate` can represent. The proofs use only that there are few enough
      of them for their days to fit 32 bits, and that they include the years 0 to 9999. */
  const MIN_YEAR: int := -262_143
  const MAX_YEAR: int := 262_142

  predicate Representable(year: int) {
    MIN_YEAR <= year <= MAX_YEAR
  }

  /** `NaiveDate::from_ymd_opt`. */
  function FromYmd(year: int, month: nat, day: nat): Option<Date> {
    if Representable(year) && IsReal(year, month, day) then Some(Date(year, month, day)) else None
  }

  /** The order of dates: by year, then month, then day. */
  predicate Precedes(a: Date, b: Date) {
    || a.year < b.year
    || (a.year == b.year && (a.month < b.month || (a.month == b.month && a.day < b.day)))
  }

  /** The day after. */
  function Next(d: Date): (n: Date)
    requires Valid(d)
    ensures Valid(n) && Precedes(d, n)
  {
    if d.day < DaysInMonth(d.year, d.month) then d.(day := d.day + 1)
    else if d.month < 12 then Date(d.year, d.month + 1, 1)
    else Date(d.year + 1, 1, 1)
  }

  /** Date plus a number of days, one day after the other. */
  function AddDays(d: Date, n: nat): (r: Date)
    requires Valid(d)
    ensures Valid(r)
    decreases n
  {
    if n == 0 then d else Next(AddDays(d, n - 1))
  }

  // ---- Day numbers

  /** Days in the years before `year`; division rounds towards minus infinity. */
  function DaysBeforeYear(year: int): int {
    365 * (year - 1) + (year - 1) / 4 - (year - 1) / 100 + (year - 1) / 400
  }

  function DaysBeforeMonth(year: int, month: nat): nat
    requires 1 <= month <= 13
  {
    if month == 1 then 0 else DaysBeforeMonth(year, month - 1) + DaysInMonth(year, month - 1)
  }

  function DayNumber(d: Date): int
    requires Valid(d)
  {
    DaysBeforeYear(d.year) + DaysBeforeMonth(d.year, d.month) + d.day
  }

  function DaysInYear(year: int): nat {
    if IsLeap(year) then 366 else 365
  }

  /** A year number grows by one multiple of `k` exactly at the multiples of `k`. */
  lemma QuotientStep(n: int, k: nat)
    requires k > 0
    ensures n / k - (n - 1) / k == if n % k == 0 then 1 else 0
  {
    var p, r := (n - 1) / k, (n - 1) % k;
    assert n - 1 == k * p + r;
    if r == k - 1 {
      assert n == k * (p + 1);
      QuotientUnique(n, k, p + 1, 0);
    } else {
      QuotientUnique(n, k, p, r + 1);
    }
  }

  lemma QuotientUnique(n: int, k: nat, p: int, r: nat)
    requires k > 0 && n == k * p + r && r < k
    ensures n / k == p && n % k == r
  {
    var x, y := n / k, n % k;
    assert n == k * x + y;
    assert k * (x - p) == r - y;
    assert x - p >= 1 ==> k * (x - p) >= k;
    assert x - p <= -1 ==> k * (x - p) + k <= 0;
  }

  lemma YearLength(year: int)
    ensures DaysBeforeYear(year + 1) == DaysBeforeYear(year) + DaysInYear(year)
  {
    QuotientStep(year, 4);
    QuotientStep(year, 100);
    QuotientStep(year, 400);
  }

  lemma MonthsFillYear(year: int)
    ensures DaysBeforeMonth(year, 2) == 31
    ensures DaysBeforeMonth(year, 3) == 31 + DaysInMonth(year, 2)
    ensures DaysBeforeMonth(year, 13) == DaysInYear(year)
  {
    assert DaysBeforeMonth(year, 4) == DaysBeforeMonth(year, 3) + 31;
    assert DaysBeforeMonth(year, 5) == DaysBeforeMonth(year, 4) + 30;
    assert DaysBeforeMonth(year, 6) == DaysBeforeMonth(year, 5) + 31;
    assert DaysBeforeMonth(year, 7) == DaysBeforeMonth(year, 6) + 30;
    assert DaysBeforeMonth(year, 8) == DaysBeforeMonth(year, 7) + 31;
    assert DaysBeforeMonth(year, 9) == DaysBeforeMonth(year, 8) + 31;
    assert DaysBeforeMonth(year, 10) == DaysBeforeMonth(year, 9) + 30;
    assert DaysBeforeMonth(year, 11) == DaysBeforeMonth(year, 10) + 31;
    assert DaysBeforeMonth(year, 12) == DaysBeforeMonth(year, 11) + 30;
  }

  /** The successor of a date has the next day number. */
  lemma NextIsOneLater(d: Date)
    requires Valid(d)
    ensures DayNumber(Next(d)) == DayNumber(d) + 1
  {
    if d.day == DaysInMonth(d.year, d.month) && d.month == 12 {
      YearLength(d.year);
      MonthsFillYear(d.year);
    }
  }

  lemma {:induction false} AddDaysCounts(d: Date, n: nat)
    requires Valid(d)
    ensures DayNumber(AddDays(d, n)) == DayNumber(d) + n
  {
    if n > 0 {
      AddDaysCounts(d, n - 1);
      NextIsOneLater(AddDays(d, n - 1));
    }
  }

  lemma {:induction false} MonthsGrow(year: int, a: nat, b: nat)
    requires 1 <= a < b <= 13
    ensures DaysBeforeMonth(year, a) + DaysInMonth(year, a) <= DaysBeforeMonth(year, b)
  {
    if a + 1 < b {
      MonthsGrow(year, a, b - 1);
    }
  }

  /** A date lies within its year. */
  lemma DayWithinYear(d: Date)
    requires Valid(d)
    ensures DaysBeforeYear(d.year) < DayNumber(d) <= DaysBeforeYear(d.year + 1)
  {
    YearLength(d.year);
    MonthsFillYear(d.year);
    MonthsGrow(d.year, d.month, 13);
  }

  lemma {:induction false} YearsGrow(a: int, b: int)
    requires a <= b
    ensures DaysBeforeYear(a) + 365 * (b - a) <= DaysBeforeYear(b) <= DaysBeforeYear(a) + 366 * (b - a)
    decreases b - a
  {
    if a < b {
      YearsGrow(a, b - 1);
      YearLength(b - 1);
    }
  }

  lemma PrecedesIsSmaller(a: Date, b: Date)
    requires Valid(a) && Valid(b) && Precedes(a, b)
    ensures DayNumber(a) < DayNumber(b)
  {
    if a.year < b.year {
      DayWithinYear(a);
      DayWithinYear(b);
      YearsGrow(a.year + 1, b.year);
    } else if a.month < b.month {
      MonthsGrow(a.year, a.month, b.month);
    }
  }

  /** Day numbers order dates as the calendar does, and determine them. */
  lemma OrderByDayNumber(a: Date, b: Date)
    requires Valid(a) && Valid(b)
    ensures Precedes(a, b) <==> DayNumber(a) < DayNumber(b)
    ensures DayNumber(a) == DayNumber(b) <==> a == b
  {
    if Precedes(a, b) {
      PrecedesIsSmaller(a, b);
    } else if a != b {
      PrecedesIsSmaller(b, a);
    }
  }

  /** Counting days forward inverts the day number: it reaches every later date, and only that one. */
  lemma AddDaysReaches(from: Date, to: Date)
    requires Valid(from) && Valid(to) && DayNumber(from) <= DayNumber(to)
    ensures AddDays(from, DayNumber(to) - DayNumber(from)) == to
  {
    AddDaysCounts(from, DayNumber(to) - DayNumber(from));
    OrderByDayNumber(AddDays(from, DayNumber(to) - DayNumber(from)), to);
  }
}
