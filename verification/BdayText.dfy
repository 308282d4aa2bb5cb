/** `parse_bday`: the textual forms of a birthday (RFC 6350 sections 4.3.1 and 6.2.5). */
module BdayText {
  import opened Text
  import opened Calendar
  import opened Birthday

  predicate IsDigit(c: char) {
    '0' <= c <= '9'
  }

  predicate AllDigits(s: string) {
    forall i :: 0 <= i < |s| ==> IsDigit(s[i])
  }

  function DigitValue(c: char): nat
    requires IsDigit(c)
  {
    c as nat - '0' as nat
  }

  function DigitsOf(s: string): (digits: string)
    ensures AllDigits(digits)
  {
    if s == [] then [] else (if IsDigit(s[0]) then [s[0]] else []) + DigitsOf(s[1..])
  }

  /** The number that a string of digits denotes. */
  function NumberOf(digits: string): nat
    requires AllDigits(digits)
  {
    if digits == [] then 0
    else NumberOf(digits[..|digits| - 1]) * 10 + DigitValue(digits[|digits| - 1])
  }

  /** Everything before the first `T` or `t`. */
  function DatePart(raw: string): string {
    if raw == [] || raw[0] == 'T' || raw[0] == 't' then [] else [raw[0]] + DatePart(raw[1..])
  }

  function ParseBday(value: string): Option<Birthday> {
    var raw := Trim(value);
    if raw == "" then None else
      var datePart := DatePart(raw);
      var digits := DigitsOf(datePart);
      if StartsWith(datePart, "--") then
        if |digits| != 4 then None
        else Checked(raw, None, NumberOf(digits[0..2]), NumberOf(digits[2..4]))
      else
        if |digits| != 8 then None
        else Checked(raw, Some(NumberOf(digits[0..4])), NumberOf(digits[4..6]), NumberOf(digits[6..8]))
  }

  /** The month-day must exist in a leap year, and in the recorded year if there is one. */
  function Checked(raw: string, year: Option<nat>, month: nat, day: nat): Option<Birthday> {
    if FromYmd(2024, month, day).None? then None
    else if year.Some? && FromYmd(year.value, month, day).None? then None
    else Some(Birthday(raw, month, day, match year case Some(y) => Some(y) case None => None))
  }

  /** Whatever is accepted denotes a real date, with a year of at most four digits. */
  lemma ParsedIsReal(value: string)
    requires ParseBday(value).Some?
    ensures var b := ParseBday(value).value;
      IsBirthday(b) && b.raw == Trim(value) && (b.year.Some? ==> 0 <= b.year.value <= 9999)
  {
    var digits := DigitsOf(DatePart(Trim(value)));
    if |digits| == 8 {
      NumberOfFour(digits[0..4]);
    }
  }

  lemma NumberOfTwo(s: string)
    requires |s| == 2 && AllDigits(s)
    ensures NumberOf(s) == DigitValue(s[0]) * 10 + DigitValue(s[1])
  {
    assert s[..1][..0] == [];
    assert NumberOf(s[..1]) == DigitValue(s[0]);
  }

  lemma NumberOfFour(s: string)
    requires |s| == 4 && AllDigits(s)
    ensures NumberOf(s) == NumberOf(s[..2]) * 100 + NumberOf(s[2..])
    ensures NumberOf(s) <= 9999
  {
    NumberOfTwo(s[..2]);
    NumberOfTwo(s[2..]);
    assert s[..3][..2] == s[..2] && s[..3][2] == s[2];
    assert NumberOf(s[..3]) == NumberOf(s[..2]) * 10 + DigitValue(s[2]);
  }

  // ---- The forms of the standard

  function Digit(n: nat): char
    requires n < 10
  {
    '0' + n as char
  }

  function TwoDigits(n: nat): string
    requires n < 100
  {
    [Digit(n / 10), Digit(n % 10)]
  }

  function FourDigits(n: nat): string
    requires n < 10_000
  {
    TwoDigits(n / 100) + TwoDigits(n % 100)
  }

  /** `YYYY-MM-DD`, `YYYYMMDD`, `--MM-DD` or `--MMDD`. */
  function Rendered(year: Option<nat>, month: nat, day: nat, dashed: bool): string
    requires month < 100 && day < 100 && (year.Some? ==> year.value < 10_000)
  {
    var dash := if dashed then "-" else "";
    match year
    case Some(y) => FourDigits(y) + dash + TwoDigits(month) + dash + TwoDigits(day)
    case None => "--" + TwoDigits(month) + dash + TwoDigits(day)
  }

  lemma {:induction false} DigitsOfConcat(a: string, b: string)
    ensures DigitsOf(a + b) == DigitsOf(a) + DigitsOf(b)
  {
    if a == [] {
      assert a + b == b;
    } else {
      assert (a + b)[1..] == a[1..] + b;
      DigitsOfConcat(a[1..], b);
    }
  }

  lemma TwoDigitsRead(n: nat)
    requires n < 100
    ensures AllDigits(TwoDigits(n))
    ensures DigitsOf(TwoDigits(n)) == TwoDigits(n)
    ensures NumberOf(TwoDigits(n)) == n
  {
    var s := TwoDigits(n);
    assert s[1..] == [s[1]] && DigitsOf(s[1..][1..]) == [];
    assert DigitsOf(s[1..]) == [s[1]];
    NumberOfTwo(s);
  }

  lemma FourDigitsRead(n: nat)
    requires n < 10_000
    ensures AllDigits(FourDigits(n))
    ensures DigitsOf(FourDigits(n)) == FourDigits(n)
    ensures NumberOf(FourDigits(n)) == n
  {
    TwoDigitsRead(n / 100);
    TwoDigitsRead(n % 100);
    DigitsOfConcat(TwoDigits(n / 100), TwoDigits(n % 100));
    var s := FourDigits(n);
    assert s[..2] == TwoDigits(n / 100) && s[2..] == TwoDigits(n % 100);
    NumberOfFour(s);
  }

  lemma DashHasNoDigits(dashed: bool)
    ensures DigitsOf(if dashed then "-" else "") == []
    ensures DigitsOf("--") == []
  {
    assert "-"[1..] == [];
    assert "--"[1..] == "-";
  }

  /** The digits of a rendered date are its parts in order. */
  lemma RenderedDigits(year: Option<nat>, month: nat, day: nat, dashed: bool)
    requires month < 100 && day < 100 && (year.Some? ==> year.value < 10_000)
    ensures DigitsOf(Rendered(year, month, day, dashed)) ==
            (if year.Some? then FourDigits(year.value) else []) + TwoDigits(month) + TwoDigits(day)
  {
    var dash := if dashed then "-" else "";
    var head := if year.Some? then FourDigits(year.value) + dash else "--";
    DashHasNoDigits(dashed);
    TwoDigitsRead(month);
    TwoDigitsRead(day);
    if year.Some? {
      FourDigitsRead(year.value);
      DigitsOfConcat(FourDigits(year.value), dash);
      assert FourDigits(year.value) + [] == FourDigits(year.value);
    }
    DigitsOfParts(head, TwoDigits(month), dash, TwoDigits(day));
  }

  lemma DigitsOfParts(a: string, b: string, dash: string, c: string)
    requires DigitsOf(dash) == []
    ensures DigitsOf(a + b + dash + c) == DigitsOf(a) + DigitsOf(b) + DigitsOf(c)
  {
    DigitsOfConcat(a, b);
    DigitsOfConcat(a + b, dash);
    DigitsOfConcat(a + b + dash, c);
    assert DigitsOf(a + b) + [] == DigitsOf(a + b);
  }

  predicate DateText(s: string) {
    forall i :: 0 <= i < |s| ==> IsDigit(s[i]) || s[i] == '-'
  }

  /** A rendered date consists of digits and dashes, and starts with two dashes only without a year. */
  lemma RenderedShape(year: Option<nat>, month: nat, day: nat, dashed: bool)
    requires month < 100 && day < 100 && (year.Some? ==> year.value < 10_000)
    ensures var r := Rendered(year, month, day, dashed);
      && |r| >= 6
      && DateText(r)
      && (StartsWith(r, "--") <==> year.None?)
  {
    TwoDigitsRead(month);
    TwoDigitsRead(day);
    var r := Rendered(year, month, day, dashed);
    match year
    case Some(y) =>
      FourDigitsRead(y);
      assert r[0] == FourDigits(y)[0];
      assert r[..2][0] == r[0];
    case None =>
      assert r[..2] == "--";
  }

  lemma {:induction false} DatePartBeforeTime(date: string, time: string)
    requires DateText(date)
    requires time == [] || time[0] == 'T' || time[0] == 't'
    ensures DatePart(date + time) == date
  {
    if date == [] {
      assert date + time == time;
    } else {
      assert (date + time)[1..] == date[1..] + time;
      DatePartBeforeTime(date[1..], time);
    }
  }

  lemma {:induction false} TrimStartBlank(before: string, s: string)
    requires AllWhitespace(before)
    ensures TrimStart(before + s) == TrimStart(s)
  {
    if before == [] {
      assert before + s == s;
    } else {
      assert (before + s)[1..] == before[1..] + s;
      TrimStartBlank(before[1..], s);
    }
  }

  /** Trimming the end keeps a visible front and cuts only behind it. */
  lemma {:induction false} TrimEndKeepsFront(front: string, rest: string)
    requires front != [] && !IsWhitespace(front[|front| - 1])
    ensures exists k: nat :: k <= |rest| && TrimEnd(front + rest) == front + rest[..k]
    decreases |rest|
  {
    var s := front + rest;
    if rest == [] {
      assert s == front && rest[..0] == [] && front + rest[..0] == front;
    } else if IsWhitespace(s[|s| - 1]) {
      var shorter := rest[..|rest| - 1];
      assert s[..|s| - 1] == front + shorter;
      TrimEndKeepsFront(front, shorter);
      var k: nat :| k <= |shorter| && TrimEnd(front + shorter) == front + shorter[..k];
      assert shorter[..k] == rest[..k];
    } else {
      assert rest[..|rest|] == rest;
    }
  }

  /** Trimmed, a padded date still starts with the date, followed by nothing or by a time part. */
  lemma TrimmedDate(before: string, date: string, rest: string)
    requires AllWhitespace(before)
    requires date != [] && DateText(date)
    ensures exists k: nat :: k <= |rest| && Trim(before + date + rest) == date + rest[..k]
  {
    assert before + date + rest == before + (date + rest);
    TrimStartBlank(before, date + rest);
    TrimEndKeepsFront(date, rest);
  }

  /** Every form of the standard, with blanks around it and any time part behind it, reads back as
      the same year, month and day. */
  lemma RenderedReadsBack(
    year: Option<nat>, month: nat, day: nat, dashed: bool, before: string, time: string, after: string)
    requires year.Some? ==> year.value < 10_000 && IsReal(year.value, month, day)
    requires IsReal(2024, month, day)
    requires AllWhitespace(before) && AllWhitespace(after)
    requires time == [] || time[0] == 'T' || time[0] == 't'
    ensures var value := before + Rendered(year, month, day, dashed) + time + after;
      ParseBday(value) ==
      Some(Birthday(Trim(value), month, day, match year case Some(y) => Some(y) case None => None))
  {
    var date := Rendered(year, month, day, dashed);
    RenderedShape(year, month, day, dashed);
    TrimmedTime(before, date, time, after);
    RenderedNumbers(year, month, day, dashed);
  }

  lemma ThreeSlices(a: string, b: string, c: string)
    ensures var s := a + b + c;
      s[..|a|] == a && s[|a|..|a| + |b|] == b && s[|a| + |b|..] == c
  {
  }

  /** The slices that the parser takes from the digits are the rendered numbers. */
  lemma RenderedNumbers(year: Option<nat>, month: nat, day: nat, dashed: bool)
    requires month < 100 && day < 100 && (year.Some? ==> year.value < 10_000)
    ensures var digits := DigitsOf(Rendered(year, month, day, dashed));
      match year
      case Some(y) =>
        |digits| == 8 && NumberOf(digits[0..4]) == y && NumberOf(digits[4..6]) == month && NumberOf(digits[6..8]) == day
      case None => |digits| == 4 && NumberOf(digits[0..2]) == month && NumberOf(digits[2..4]) == day
  {
    RenderedDigits(year, month, day, dashed);
    var head := if year.Some? then FourDigits(year.value) else [];
    var digits := DigitsOf(Rendered(year, month, day, dashed));
    ThreeSlices(head, TwoDigits(month), TwoDigits(day));
    assert digits[|head|..|head| + 2] == TwoDigits(month) && digits[|head| + 2..|head| + 4] == TwoDigits(day);
    TwoDigitsRead(month);
    TwoDigitsRead(day);
    if year.Some? {
      assert digits[0..4] == head;
      FourDigitsRead(year.value);
    }
  }

  lemma TrimmedTime(before: string, date: string, time: string, after: string)
    requires AllWhitespace(before) && AllWhitespace(after)
    requires date != [] && DateText(date)
    requires time == [] || time[0] == 'T' || time[0] == 't'
    ensures Trim(before + date + time + after) != []
    ensures DatePart(Trim(before + date + time + after)) == date
  {
    var whole := before + date + time + after;
    if time == [] {
      assert whole == before + date + after;
      TrimPadded(before, date, after);
      assert date + [] == date;
      DatePartBeforeTime(date, []);
    } else {
      var rest := time + after;
      assert whole == before + date + rest;
      TrimmedDate(before, date, rest);
      var k: nat :| k <= |rest| && Trim(whole) == date + rest[..k];
      DatePartBeforeTime(date, rest[..k]);
    }
  }

  // ---- What is accepted, and what is not

  lemma {:induction false} DatePartIsFront(raw: string)
    ensures var date := DatePart(raw);
      && |date| <= |raw| && date == raw[..|date|]
      && 'T' !in date && 't' !in date
      && (|date| < |raw| ==> raw[|date|] == 'T' || raw[|date|] == 't')
  {
    if raw != [] && raw[0] != 'T' && raw[0] != 't' {
      DatePartIsFront(raw[1..]);
      var rest := DatePart(raw[1..]);
      assert DatePart(raw) == [raw[0]] + rest;
      assert raw[..|rest| + 1] == [raw[0]] + raw[1..][..|rest|];
    }
  }

  lemma TwoDigitsOf(s: string)
    requires |s| == 2 && AllDigits(s)
    ensures NumberOf(s) < 100 && TwoDigits(NumberOf(s)) == s
  {
    NumberOfTwo(s);
    assert DigitValue(s[0]) < 10 && DigitValue(s[1]) < 10;
    assert Digit(DigitValue(s[0])) == s[0] && Digit(DigitValue(s[1])) == s[1];
  }

  lemma FourDigitsOf(s: string)
    requires |s| == 4 && AllDigits(s)
    ensures NumberOf(s) < 10_000 && FourDigits(NumberOf(s)) == s
  {
    NumberOfFour(s);
    TwoDigitsOf(s[..2]);
    TwoDigitsOf(s[2..]);
    var a, b := NumberOf(s[..2]), NumberOf(s[2..]);
    assert NumberOf(s) / 100 == a && NumberOf(s) % 100 == b;
    assert s == s[..2] + s[2..];
  }

  /** Does this text, up to its first `T` or `t`, hold exactly the digits of this date, with two dashes in
      front exactly when there is no year? */
  predicate Shows(raw: string, year: Option<nat>, month: nat, day: nat)
    requires month < 100 && day < 100 && (year.Some? ==> year.value < 10_000)
  {
    var date := DatePart(raw);
    && (StartsWith(date, "--") <==> year.None?)
    && DigitsOf(date) == (if year.Some? then FourDigits(year.value) else []) + TwoDigits(month) + TwoDigits(day)
  }

  predicate Fits(year: Option<nat>, month: nat, day: nat) {
    month < 100 && day < 100 && (year.Some? ==> year.value < 10_000)
  }

  lemma ShownIsParsed(value: string, year: Option<nat>, month: nat, day: nat)
    requires Fits(year, month, day) && Shows(Trim(value), year, month, day)
    requires IsReal(2024, month, day) && (year.Some? ==> IsReal(year.value, month, day))
    ensures ParseBday(value) ==
            Some(Birthday(Trim(value), month, day, match year case Some(y) => Some(y) case None => None))
  {
    var raw := Trim(value);
    var digits := DigitsOf(DatePart(raw));
    var head := if year.Some? then FourDigits(year.value) else [];
    ThreeSlices(head, TwoDigits(month), TwoDigits(day));
    assert digits[|head|..|head| + 2] == TwoDigits(month) && digits[|head| + 2..|head| + 4] == TwoDigits(day);
    TwoDigitsRead(month);
    TwoDigitsRead(day);
    assert raw != [];
    if year.Some? {
      assert digits[0..4] == head;
      FourDigitsRead(year.value);
    }
  }

  lemma ParsedIsShown(value: string)
    requires ParseBday(value).Some?
    ensures exists year, month, day ::
      && Fits(year, month, day) && Shows(Trim(value), year, month, day)
      && IsReal(2024, month, day) && (year.Some? ==> IsReal(year.value, month, day))
  {
    var raw := Trim(value);
    var digits := DigitsOf(DatePart(raw));
    var n: nat := if StartsWith(DatePart(raw), "--") then 0 else 4;
    var month, day := NumberOf(digits[n..n + 2]), NumberOf(digits[n + 2..n + 4]);
    TwoDigitsOf(digits[n..n + 2]);
    TwoDigitsOf(digits[n + 2..n + 4]);
    if n == 0 {
      assert digits == [] + TwoDigits(month) + TwoDigits(day);
      assert Fits(None, month, day) && Shows(raw, None, month, day);
    } else {
      var year := NumberOf(digits[0..4]);
      FourDigitsOf(digits[0..4]);
      assert digits == FourDigits(year) + TwoDigits(month) + TwoDigits(day);
      assert Fits(Some(year), month, day) && Shows(raw, Some(year), month, day);
    }
  }

  /** A value is accepted exactly when the part of it before a time shows the digits of a real date, in a
      leap year and in its own; so a value with any other number of digits is refused. */
  lemma AcceptedIff(value: string)
    ensures ParseBday(value).Some? <==>
            exists year, month, day ::
              && Fits(year, month, day) && Shows(Trim(value), year, month, day)
              && IsReal(2024, month, day) && (year.Some? ==> IsReal(year.value, month, day))
  {
    if ParseBday(value).Some? {
      ParsedIsShown(value);
    }
    if year, month, day :|
      Fits(year, month, day) && Shows(Trim(value), year, month, day) &&
      IsReal(2024, month, day) && (year.Some? ==> IsReal(year.value, month, day))
    {
      ShownIsParsed(value, year, month, day);
    }
  }

  /** A year and a month alone are refused. */
  lemma PartialDateIsRefused(year: nat, month: nat)
    requires year < 10_000 && month < 100
    ensures ParseBday(FourDigits(year) + "-" + TwoDigits(month)) == None
  {
    var value := FourDigits(year) + "-" + TwoDigits(month);
    FourDigitsRead(year);
    TwoDigitsRead(month);
    DashHasNoDigits(true);
    assert IsDigit(FourDigits(year)[0]) && IsDigit(TwoDigits(month)[1]);
    assert [] + value + [] == value;
    TrimPadded([], value, []);
    DatePartBeforeTime(value, []);
    assert value + [] == value;
    DigitsOfConcat(FourDigits(year) + "-", TwoDigits(month));
    DigitsOfConcat(FourDigits(year), "-");
    assert value[0] == FourDigits(year)[0];
  }

  /** For every text that is accepted as a birthday and every date of the calendar, the day count is the
      least one that leads to an occurrence, or the maximum exactly when the calendar holds none. */
  lemma EveryParsedBirthdayIsFound(value: string, today: Date)
    requires ParseBday(value).Some? && IsDate(today)
    ensures var b := ParseBday(value).value;
      if HasNext(b, today) then IsLeast(b, today, DaysUntil(b, today))
      else DaysUntil(b, today) == U32_MAX && NeverAgain(b, today)
  {
    var b := ParseBday(value).value;
    ParsedIsReal(value);
    FallbackIff(b, today);
    if HasNext(b, today) {
      DaysUntilIsLeast(b, today);
    }
  }
}
