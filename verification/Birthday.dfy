/** When a birthday next occurs: `days_until`, `occurrence_in`, `within_window` and `turning`. */
module Birthday {
  import opened Text
  import opened Calendar

  const U32_MAX: nat := 0xFFFF_FFFF

  datatype Birthday = Birthday(raw: string, month: nat, day: nat, year: Option<int>)

  /** A month-day of a leap year, and a date of the calendar in the recorded year if there is one. */
  predicate IsBirthday(b: Birthday) {
    && FromYmd(2024, b.month, b.day).Some?
    && (b.year.Some? ==> FromYmd(b.year.value, b.month, b.day).Some?)
  }

  /** A date that the calendar library can represent. */
  predicate IsDate(d: Date) {
    Valid(d) && Representable(d.year)
  }

  /** 29 February falls on 1 March in a common year. */
  function OccurrenceIn(b: Birthday, year: int): Option<Date> {
    match FromYmd(year, b.month, b.day)
    case Some(d) => Some(d)
    case None => if b.month == 2 && b.day == 29 then FromYmd(year, 3, 1) else None
  }

  function ClampedDays(from: Date, to: Date): nat
    requires Valid(from) && Valid(to) && !Precedes(to, from)
  {
    OrderByDayNumber(to, from);
    OrderByDayNumber(from, to);
    var days := DayNumber(to) - DayNumber(from);
    if days <= U32_MAX then days else U32_MAX
  }

  function FirstYear(b: Birthday, today: Date): int {
    match b.year
    case Some(born) => if born < today.year then today.year else born
    case None => today.year
  }

  /** Days from `year` if its occurrence is not past, from the next year otherwise. */
  function DaysUntil(b: Birthday, today: Date): nat
    requires Valid(today)
  {
    var first := FirstYear(b, today);
    match DaysUntilIn(b, today, first)
    case Some(days) => days
    case None =>
      match DaysUntilIn(b, today, first + 1)
      case Some(days) => days
      case None => U32_MAX
  }

  function DaysUntilIn(b: Birthday, today: Date, year: int): Option<nat>
    requires Valid(today)
  {
    match OccurrenceIn(b, year)
    case None => None
    case Some(occurrence) => if Precedes(occurrence, today) then None else Some(ClampedDays(today, occurrence))
  }

  function WithinWindow(b: Birthday, today: Date, days: nat): Option<nat>
    requires Valid(today)
  {
    var remaining := DaysUntil(b, today);
    if remaining <= days then Some(remaining) else None
  }

  function Turning(b: Birthday, today: Date): Option<int>
    requires Valid(today)
  {
    match b.year
    case None => None
    case Some(born) => Some(AddDays(today, DaysUntil(b, today)).year - born)
  }

  // ---- What the next occurrence is

  /** The birthday is celebrated on this date: in some year, none before the recorded one. */
  ghost predicate OccursOn(b: Birthday, d: Date) {
    exists year :: (b.year.Some? ==> b.year.value <= year) && OccurrenceIn(b, year) == Some(d)
  }

  /** `days` is the least number of days after which the birthday occurs. */
  ghost predicate IsLeast(b: Birthday, today: Date, days: nat)
    requires Valid(today)
  {
    && OccursOn(b, AddDays(today, days))
    && forall n: nat :: n < days ==> !OccursOn(b, AddDays(today, n))
  }

  lemma OccurrenceExists(b: Birthday, year: int)
    requires IsBirthday(b)
    ensures OccurrenceIn(b, year).Some? <==> Representable(year)
    ensures Representable(year) ==>
      var d := OccurrenceIn(b, year).value;
      Valid(d) && d.year == year && (IsReal(year, b.month, b.day) ==> d == Date(year, b.month, b.day))
  {
  }

  /** A birthday occurs in every representable year from the recorded one on, on its own month and day, and
      if that is 29 February, on 1 March of the years that have none; and on no other date. */
  lemma OccursOnIff(b: Birthday, d: Date)
    requires IsBirthday(b)
    ensures OccursOn(b, d) <==>
            && Representable(d.year) && (b.year.Some? ==> b.year.value <= d.year)
            && (if b.month == 2 && b.day == 29 && !IsLeap(d.year) then d.month == 3 && d.day == 1
                else d.month == b.month && d.day == b.day)
  {
    if OccursOn(b, d) {
      var year :| (b.year.Some? ==> b.year.value <= year) && OccurrenceIn(b, year) == Some(d);
      OccurrenceExists(b, year);
      DateInYear(b, year);
    }
    if Representable(d.year) {
      DateInYear(b, d.year);
    }
  }

  lemma DateInYear(b: Birthday, year: int)
    requires IsBirthday(b) && Representable(year)
    ensures OccurrenceIn(b, year) ==
            Some(if b.month == 2 && b.day == 29 && !IsLeap(year) then Date(year, 3, 1) else Date(year, b.month, b.day))
  {
  }

  /** An occurrence on or after today is in no year before the first candidate. */
  lemma OccurrencesFromFirst(b: Birthday, today: Date, d: Date)
    requires IsBirthday(b) && IsDate(today) && Valid(d)
    requires OccursOn(b, d) && !Precedes(d, today)
    ensures FirstYear(b, today) <= d.year <= MAX_YEAR && OccurrenceIn(b, d.year) == Some(d)
  {
    var year :| (b.year.Some? ==> b.year.value <= year) && OccurrenceIn(b, year) == Some(d);
    OccurrenceExists(b, year);
  }

  /** Is there still an occurrence before the calendar ends? Only a birthday that is past in the last
      representable year has none. */
  predicate HasNext(b: Birthday, today: Date) {
    FirstYear(b, today) < MAX_YEAR ||
    (OccurrenceIn(b, MAX_YEAR).Some? && !Precedes(OccurrenceIn(b, MAX_YEAR).value, today))
  }

  /** The candidate year that the search settles on. */
  function ChosenYear(b: Birthday, today: Date): int
    requires IsBirthday(b) && IsDate(today)
  {
    var first := FirstYear(b, today);
    OccurrenceExists(b, first);
    if Precedes(OccurrenceIn(b, first).value, today) then first + 1 else first
  }

  lemma ChosenIsNotPast(b: Birthday, today: Date)
    requires IsBirthday(b) && IsDate(today) && HasNext(b, today)
    ensures OccurrenceIn(b, ChosenYear(b, today)).Some?
    ensures var d := OccurrenceIn(b, ChosenYear(b, today)).value;
      && Valid(d) && !Precedes(d, today) && OccursOn(b, d)
      && DayNumber(today) <= DayNumber(d)
      && DaysUntil(b, today) == ClampedDays(today, d)
  {
    var year := ChosenYear(b, today);
    OccurrenceExists(b, FirstYear(b, today));
    OccurrenceExists(b, year);
    var d := OccurrenceIn(b, year).value;
    OrderByDayNumber(d, today);
    assert (b.year.Some? ==> b.year.value <= year) && OccurrenceIn(b, year) == Some(d);
  }

  /** No representable distance is cut off: the calendar has fewer days than 32 bits can count. */
  lemma ChosenIsNear(b: Birthday, today: Date)
    requires IsBirthday(b) && IsDate(today) && HasNext(b, today)
    ensures OccurrenceIn(b, ChosenYear(b, today)).Some?
    ensures DaysUntil(b, today) == DayNumber(OccurrenceIn(b, ChosenYear(b, today)).value) - DayNumber(today) < U32_MAX
  {
    ChosenIsNotPast(b, today);
    var year := ChosenYear(b, today);
    OccurrenceExists(b, year);
    DayWithinYear(today);
    DayWithinYear(OccurrenceIn(b, year).value);
    YearsGrow(today.year, year + 1);
  }

  /** No occurrence lies between today and the chosen one. */
  lemma NothingBeforeChosen(b: Birthday, today: Date, n: nat)
    requires IsBirthday(b) && IsDate(today) && HasNext(b, today)
    requires OccursOn(b, AddDays(today, n))
    ensures OccurrenceIn(b, ChosenYear(b, today)).Some?
    ensures DayNumber(OccurrenceIn(b, ChosenYear(b, today)).value) <= DayNumber(today) + n
  {
    var d, year := AddDays(today, n), ChosenYear(b, today);
    AddDaysCounts(today, n);
    OrderByDayNumber(d, today);
    OccurrencesFromFirst(b, today, d);
    OccurrenceExists(b, FirstYear(b, today));
    OccurrenceExists(b, year);
    assert d.year >= year;
    OrderByDayNumber(d, OccurrenceIn(b, year).value);
  }

  /** `days_until` is the least number of days to an occurrence, for every date and birthday with an
      occurrence left in the calendar, so two candidate years are always enough. */
  lemma DaysUntilIsLeast(b: Birthday, today: Date)
    requires IsBirthday(b) && IsDate(today) && HasNext(b, today)
    ensures DaysUntil(b, today) < U32_MAX && IsLeast(b, today, DaysUntil(b, today))
  {
    ChosenIsNear(b, today);
    ChosenIsNotPast(b, today);
    var d, days := OccurrenceIn(b, ChosenYear(b, today)).value, DaysUntil(b, today);
    AddDaysReaches(today, d);
    forall n: nat | n < days ensures !OccursOn(b, AddDays(today, n)) {
      if OccursOn(b, AddDays(today, n)) {
        NothingBeforeChosen(b, today, n);
      }
    }
  }

  lemma LeastIsUnique(b: Birthday, today: Date, m: nat, n: nat)
    requires Valid(today) && IsLeast(b, today, m) && IsLeast(b, today, n)
    ensures m == n
  {
  }

  /** Without an occurrence left there is none on any later day. */
  lemma NothingLeft(b: Birthday, today: Date, n: nat)
    requires IsBirthday(b) && IsDate(today) && !HasNext(b, today)
    ensures !OccursOn(b, AddDays(today, n))
  {
    var d := AddDays(today, n);
    AddDaysCounts(today, n);
    OrderByDayNumber(d, today);
    if OccursOn(b, d) {
      OccurrencesFromFirst(b, today, d);
      OccurrenceExists(b, FirstYear(b, today));
    }
  }

  /** The birthday occurs on no day from today on. */
  ghost predicate NeverAgain(b: Birthday, today: Date)
    requires Valid(today)
  {
    forall n: nat :: !OccursOn(b, AddDays(today, n))
  }

  /** The fallback is reached exactly when the birthday is past in the last year of the calendar; then
      there is indeed no later occurrence. */
  lemma FallbackIff(b: Birthday, today: Date)
    requires IsBirthday(b) && IsDate(today)
    ensures DaysUntil(b, today) == U32_MAX <==> !HasNext(b, today)
    ensures NeverAgain(b, today) <==> !HasNext(b, today)
  {
    if HasNext(b, today) {
      DaysUntilIsLeast(b, today);
      assert !NeverAgain(b, today) by {
        var days := DaysUntil(b, today);
        assert OccursOn(b, AddDays(today, days));
      }
    } else {
      OccurrenceExists(b, FirstYear(b, today));
      OccurrenceExists(b, FirstYear(b, today) + 1);
      forall n: nat ensures !OccursOn(b, AddDays(today, n)) {
        NothingLeft(b, today, n);
      }
    }
  }

  /** So for a birthday on 1 January, asked on the last day of the calendar. */
  lemma LastDayHasNoNext()
    ensures var b, today := Birthday("--01-01", 1, 1, None), Date(MAX_YEAR, 12, 31);
      IsBirthday(b) && IsDate(today) && !HasNext(b, today) && DaysUntil(b, today) == U32_MAX
  {
    FallbackIff(Birthday("--01-01", 1, 1, None), Date(MAX_YEAR, 12, 31));
  }

  /** The birthday occurs on one of the days from today to `days` later, both included. */
  ghost predicate OccursWithin(b: Birthday, today: Date, days: nat)
    requires Valid(today)
  {
    exists n: nat :: n <= days && OccursOn(b, AddDays(today, n))
  }

  /** The window holds a birthday exactly when it occurs on one of the days from today to the last one, both
      included, and tells the first of them. Only a window of 2^32 - 1 days would also take in the maximum
      that stands for no occurrence. */
  lemma WithinWindowIff(b: Birthday, today: Date, days: nat)
    requires IsBirthday(b) && IsDate(today)
    ensures forall n: nat :: WithinWindow(b, today, days) == Some(n) <==>
              (n <= days && IsLeast(b, today, n)) || (n == 0xFFFF_FFFF <= days && NeverAgain(b, today))
    ensures days < 0xFFFF_FFFF ==>
      (WithinWindow(b, today, days).Some? <==> OccursWithin(b, today, days))
  {
    FallbackIff(b, today);
    var until := DaysUntil(b, today);
    if HasNext(b, today) {
      DaysUntilIsLeast(b, today);
      forall n: nat | IsLeast(b, today, n) ensures n == until {
        LeastIsUnique(b, today, n, until);
      }
      LeastIsWithin(b, today, until, days);
    } else {
      forall n: nat ensures !OccursOn(b, AddDays(today, n)) {
        NothingLeft(b, today, n);
      }
    }
  }

  lemma LeastIsWithin(b: Birthday, today: Date, n: nat, days: nat)
    requires Valid(today) && IsLeast(b, today, n)
    ensures OccursWithin(b, today, days) <==> n <= days
  {
    if n <= days {
      assert OccursOn(b, AddDays(today, n));
    }
  }

  // ---- Countdown, spacing, window and age

  lemma AddDaysAfterNext(today: Date, n: nat)
    requires Valid(today)
    ensures AddDays(Next(today), n) == AddDays(today, n + 1)
  {
    AddDaysCounts(Next(today), n);
    AddDaysCounts(today, n + 1);
    NextIsOneLater(today);
    OrderByDayNumber(AddDays(Next(today), n), AddDays(today, n + 1));
  }

  /** Each day without an occurrence brings the next one exactly one day nearer. */
  lemma CountsDown(b: Birthday, today: Date)
    requires IsBirthday(b) && IsDate(today)
    requires 0 < DaysUntil(b, today) < U32_MAX
    ensures IsDate(Next(today)) && DaysUntil(b, Next(today)) == DaysUntil(b, today) - 1
  {
    var n := DaysUntil(b, today);
    FallbackIff(b, today);
    DaysUntilIsLeast(b, today);
    StillToCome(b, today);
    LeastTomorrow(b, today, n);
    assert OccursOn(b, AddDays(Next(today), n - 1));
    FallbackIff(b, Next(today));
    DaysUntilIsLeast(b, Next(today));
    LeastIsUnique(b, Next(today), n - 1, DaysUntil(b, Next(today)));
  }

  lemma LeastTomorrow(b: Birthday, today: Date, n: nat)
    requires Valid(today) && n > 0 && IsLeast(b, today, n)
    ensures IsLeast(b, Next(today), n - 1)
  {
    AddDaysAfterNext(today, n - 1);
    forall m: nat | m < n - 1 ensures !OccursOn(b, AddDays(Next(today), m)) {
      AddDaysAfterNext(today, m);
    }
  }

  /** The day after is still in the calendar when an occurrence is to come. */
  lemma StillToCome(b: Birthday, today: Date)
    requires IsBirthday(b) && IsDate(today) && HasNext(b, today) && DaysUntil(b, today) > 0
    ensures IsDate(Next(today))
  {
    ChosenIsNear(b, today);
    OccurrenceExists(b, ChosenYear(b, today));
    var d := OccurrenceIn(b, ChosenYear(b, today)).value;
    NextIsOneLater(today);
    OrderByDayNumber(d, Next(today));
  }

  /** Consecutive occurrences are a year apart, also for birthdays on 29 February. */
  lemma OccurrencesAreAYearApart(b: Birthday, year: int)
    requires IsBirthday(b) && Representable(year) && Representable(year + 1)
    ensures OccurrenceIn(b, year).Some? && OccurrenceIn(b, year + 1).Some?
    ensures var gap := DayNumber(OccurrenceIn(b, year + 1).value) - DayNumber(OccurrenceIn(b, year).value);
      gap == 365 || gap == 366
  {
    OccurrenceExists(b, year);
    OccurrenceExists(b, year + 1);
    YearLength(year);
    MonthsFillYear(year);
    MonthsFillYear(year + 1);
    var month := OccurrenceIn(b, year).value.month;
    SameMonthNextYear(year, month);
    SameMonthNextYear(year, OccurrenceIn(b, year + 1).value.month);
  }

  /** The days before a month differ between years only by the leap day, from March on. */
  lemma {:induction false} SameMonthNextYear(year: int, month: nat)
    requires 1 <= month <= 12
    ensures DaysBeforeMonth(year, month) - (if month > 2 && IsLeap(year) then 1 else 0) ==
            DaysBeforeMonth(year + 1, month) - (if month > 2 && IsLeap(year + 1) then 1 else 0)
  {
    if month > 1 {
      SameMonthNextYear(year, month - 1);
    }
  }

  /** Unless a later birth year is recorded, the next occurrence is at most 365 days away, so a window
      of 366 days holds every birthday that has one. */
  lemma YearWindowHoldsEveryBirthday(b: Birthday, today: Date)
    requires IsBirthday(b) && IsDate(today)
    requires b.year.Some? ==> b.year.value <= today.year
    ensures HasNext(b, today) ==> DaysUntil(b, today) <= 365
    ensures WithinWindow(b, today, 366) == if HasNext(b, today) then Some(DaysUntil(b, today)) else None
  {
    FallbackIff(b, today);
    if HasNext(b, today) {
      NextIsWithinAYear(b, today);
    }
  }

  lemma NextIsWithinAYear(b: Birthday, today: Date)
    requires IsBirthday(b) && IsDate(today) && HasNext(b, today)
    requires b.year.Some? ==> b.year.value <= today.year
    ensures DaysUntil(b, today) <= 365
  {
    ChosenIsNear(b, today);
    OccurrenceExists(b, today.year);
    var first := OccurrenceIn(b, today.year).value;
    if Precedes(first, today) {
      PrecedesIsSmaller(first, today);
      OccurrenceExists(b, today.year + 1);
      OccurrencesAreAYearApart(b, today.year);
    } else {
      SameYearWithin(today, first);
    }
  }

  lemma SameYearWithin(a: Date, b: Date)
    requires Valid(a) && Valid(b) && a.year == b.year
    ensures DayNumber(b) - DayNumber(a) <= 365
  {
    YearLength(a.year);
    DayWithinYear(a);
    DayWithinYear(b);
  }

  lemma ReachesChosen(b: Birthday, today: Date)
    requires IsBirthday(b) && IsDate(today) && HasNext(b, today)
    ensures OccurrenceIn(b, ChosenYear(b, today)) == Some(AddDays(today, DaysUntil(b, today)))
  {
    ChosenIsNear(b, today);
    ChosenIsNotPast(b, today);
    AddDaysReaches(today, OccurrenceIn(b, ChosenYear(b, today)).value);
  }

  /** The age reported is the year of the next occurrence minus the birth year, and never negative. */
  lemma TurningIsAge(b: Birthday, today: Date)
    requires IsBirthday(b) && IsDate(today) && b.year.Some?
    requires DaysUntil(b, today) < U32_MAX
    ensures Turning(b, today).Some? && Turning(b, today).value >= 0
    ensures OccurrenceIn(b, b.year.value + Turning(b, today).value) == Some(AddDays(today, DaysUntil(b, today)))
  {
    FallbackIff(b, today);
    ReachesChosen(b, today);
    OccurrenceExists(b, ChosenYear(b, today));
  }
}
