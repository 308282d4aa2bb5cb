/** `upcoming_birthdays`: the scan over all cards, and the order of its result. */
module UpcomingBirthdays {
  import opened Text
  import opened Runs
  import opened Calendar
  import opened Birthday
  import opened BdayText
  import opened Vcard
  import opened ContactSearch

  const MAX_BIRTHDAY_DAYS: nat := 366

  // ---- The scan

  /** What a card is to the scan. */
  datatype Finding = NoBirthday | Unparseable | Outside | Upcoming(birthday: Birthday, daysUntil: nat)

  function FindingOf(card: Contact, today: Date, days: nat): Finding
    requires Valid(today)
  {
    match Parsed(card.vcard).birthday
    case None => NoBirthday
    case Some(raw) =>
      match ParseBday(raw)
      case None => Unparseable
      case Some(b) =>
        match WithinWindow(b, today, days)
        case None => Outside
        case Some(n) => Upcoming(b, n)
  }

  datatype Entry = Entry(
    href: string,
    uid: Option<string>,
    fullName: Option<string>,
    monthDay: (nat, nat),
    birthday: string,
    daysUntil: nat,
    next: Date,
    turning: Option<int>
  )

  function EntryOf(card: Contact, b: Birthday, n: nat, today: Date): Entry
    requires Valid(today)
  {
    var parsed := Parsed(card.vcard);
    Entry(card.href, parsed.uid, parsed.fullName, (b.month, b.day), b.raw, n, AddDays(today, n), Turning(b, today))
  }

  datatype Scan = Scan(birthdays: seq<Entry>, scanned: nat, unparseable: nat)

  /** The entries in card order, and the two counts. */
  function Scanned(cards: seq<Contact>, today: Date, days: nat): Scan
    requires Valid(today)
  {
    if cards == [] then Scan([], 0, 0) else ScanOne(Scanned(Before(cards), today, days), Latest(cards), today, days)
  }

  function ScanOne(s: Scan, card: Contact, today: Date, days: nat): Scan
    requires Valid(today)
  {
    match FindingOf(card, today, days)
    case Upcoming(b, n) => Scan(s.birthdays + [EntryOf(card, b, n, today)], s.scanned + 1, s.unparseable)
    case Unparseable => Scan(s.birthdays, s.scanned + 1, s.unparseable + 1)
    case _ => Scan(s.birthdays, s.scanned + 1, s.unparseable)
  }

  lemma ScannedNext(front: seq<Contact>, cards: seq<Contact>, i: nat, today: Date, days: nat, done: Scan, next: Scan)
    requires Valid(today) && i < |cards|
    requires done == Scanned(front + cards[..i], today, days) && next == ScanOne(done, cards[i], today, days)
    ensures next == Scanned(front + cards[..i + 1], today, days)
  {
    var more := front + cards[..i + 1];
    assert Before(more) == front + cards[..i] && Latest(more) == cards[i];
  }

  /** One card: counted, and listed unless one of the three tests passes it over. */
  method ScanCard(card: Contact, today: Date, days: nat, before: Scan) returns (after: Scan)
    requires Valid(today)
    ensures after == ScanOne(before, card, today, days)
  {
    after := before.(scanned := before.scanned + 1);
    var parsed := ParseVcard(card.vcard);
    if parsed.birthday.None? {
      return;
    }
    var bday := ParseBday(parsed.birthday.value);
    if bday.None? {
      after := after.(unparseable := after.unparseable + 1);
      return;
    }
    var daysUntil := WithinWindow(bday.value, today, days);
    if daysUntil.None? {
      return;
    }
    var b, n := bday.value, daysUntil.value;
    after := after.(birthdays := after.birthdays + [
      Entry(card.href, parsed.uid, parsed.fullName, (b.month, b.day), b.raw, n, AddDays(today, n), Turning(b, today))]);
  }

  /** The inner loop: the cards of one address book. */
  method ScanBook(cards: seq<Contact>, today: Date, days: nat, before: Scan, ghost front: seq<Contact>)
    returns (scan: Scan)
    requires Valid(today) && before == Scanned(front, today, days)
    ensures scan == Scanned(front + cards, today, days)
  {
    scan := before;
    assert front + cards[..0] == front;
    for i := 0 to |cards|
      invariant scan == Scanned(front + cards[..i], today, days)
    {
      ghost var done := scan;
      scan := ScanCard(cards[i], today, days, scan);
      ScannedNext(front, cards, i, today, days, done, scan);
    }
    assert cards[..|cards|] == cards;
  }

  /** A window outside of 1 to 366 days is refused; otherwise the scan of all books, in order. */
  method ScanBirthdays(books: seq<seq<Contact>>, today: Date, days: nat) returns (result: Result<Scan, InvalidParams>)
    requires Valid(today)
    ensures result.Err? <==> days == 0 || days > 366
    ensures result.Ok? ==>
      var all := Scanned(Flatten(books), today, days);
      result.value == Scan(Sorted(all.birthdays), all.scanned, all.unparseable)
  {
    if days == 0 || days > MAX_BIRTHDAY_DAYS {
      return Err(InvalidParams);
    }
    var scan := Scan([], 0, 0);
    for b := 0 to |books|
      invariant scan == Scanned(Flatten(books[..b]), today, days)
    {
      scan := ScanBook(books[b], today, days, scan, Flatten(books[..b]));
      FlattenOneMore(books, b);
    }
    assert books[..|books|] == books;
    return Ok(scan.(birthdays := Sorted(scan.birthdays)));
  }

  // ---- What is listed

  /** The birthday that a card records, if its text is one. */
  function BirthdayOf(card: Contact): Option<Birthday> {
    match Parsed(card.vcard).birthday
    case None => None
    case Some(raw) => ParseBday(raw)
  }

  /** An entry tells the card and its birthday, the first day from today on which it occurs, and the age then. */
  ghost predicate Tells(e: Entry, card: Contact, b: Birthday, today: Date)
    requires Valid(today)
  {
    && e.href == card.href && e.uid == Parsed(card.vcard).uid && e.fullName == Parsed(card.vcard).fullName
    && e.monthDay == (b.month, b.day) && e.birthday == b.raw
    && IsLeast(b, today, e.daysUntil)
    && Valid(e.next) && OccursOn(b, e.next) && DayNumber(e.next) == DayNumber(today) + e.daysUntil
    && e.turning == match b.year case None => None case Some(born) => Some(e.next.year - born)
  }

  /** What one card does to a scan: an entry at the end if its birthday occurs from today to `days` later,
      both included, and none otherwise; every card is counted, and exactly a birthday text that is no date
      is counted as unparseable. */
  ghost predicate Adds(before: Scan, after: Scan, card: Contact, today: Date, days: nat)
    requires Valid(today)
  {
    var b := BirthdayOf(card);
    && (if b.Some? && OccursWithin(b.value, today, days) then
          && |after.birthdays| == |before.birthdays| + 1
          && after.birthdays[..|before.birthdays|] == before.birthdays
          && Tells(after.birthdays[|before.birthdays|], card, b.value, today)
          && after.birthdays[|before.birthdays|].daysUntil <= days
        else after.birthdays == before.birthdays)
    && after.scanned == before.scanned + 1
    && after.unparseable == before.unparseable + if Parsed(card.vcard).birthday.Some? && b.None? then 1 else 0
  }

  /** Every card of a scan adds exactly this. */
  lemma ScanListsUpcoming(front: seq<Contact>, card: Contact, today: Date, days: nat)
    requires IsDate(today) && days <= 366
    ensures Scanned([], today, days) == Scan([], 0, 0)
    ensures Adds(Scanned(front, today, days), Scanned(front + [card], today, days), card, today, days)
  {
    assert Before(front + [card]) == front;
    ScanOneAdds(Scanned(front, today, days), card, today, days);
  }

  lemma ScanOneAdds(before: Scan, card: Contact, today: Date, days: nat)
    requires IsDate(today) && days <= 366
    ensures Adds(before, ScanOne(before, card, today, days), card, today, days)
  {
    if BirthdayOf(card).Some? {
      var b := BirthdayOf(card).value;
      ParsedIsReal(Parsed(card.vcard).birthday.value);
      WithinWindowIff(b, today, days);
      if WithinWindow(b, today, days).Some? {
        EntryTells(card, b, today, days);
        var n := WithinWindow(b, today, days).value;
        assert FindingOf(card, today, days) == Upcoming(b, n);
        var e := EntryOf(card, b, n, today);
        assert (before.birthdays + [e])[..|before.birthdays|] == before.birthdays;
      } else {
        assert FindingOf(card, today, days) == Outside;
      }
    }
  }

  lemma WindowFinds(b: Birthday, today: Date, days: nat, n: nat)
    requires IsBirthday(b) && IsDate(today) && days <= 366 && WithinWindow(b, today, days) == Some(n)
    ensures n <= days && IsLeast(b, today, n)
  {
    WithinWindowIff(b, today, days);
  }

  lemma NextIs(b: Birthday, today: Date, n: nat, next: Date)
    requires Valid(today) && OccursOn(b, next) && next == AddDays(today, n)
    ensures Valid(next) && DayNumber(next) == DayNumber(today) + n
  {
    AddDaysCounts(today, n);
  }

  lemma AgeThen(b: Birthday, today: Date, n: nat, next: Date)
    requires Valid(today) && DaysUntil(b, today) == n && next == AddDays(today, n)
    ensures Turning(b, today) == match b.year case None => None case Some(born) => Some(next.year - born)
  {
  }

  lemma LeastOccurs(b: Birthday, today: Date, n: nat, next: Date)
    requires Valid(today) && IsLeast(b, today, n) && next == AddDays(today, n)
    ensures OccursOn(b, next)
  {
  }

  lemma EntryTells(card: Contact, b: Birthday, today: Date, days: nat)
    requires IsBirthday(b) && IsDate(today) && WithinWindow(b, today, days).Some? && days <= 366
    ensures Tells(EntryOf(card, b, WithinWindow(b, today, days).value, today), card, b, today)
    ensures WithinWindow(b, today, days).value <= days
  {
    var n := WithinWindow(b, today, days).value;
    assert n == DaysUntil(b, today);
    WindowFinds(b, today, days, n);
    var next := AddDays(today, n);
    LeastOccurs(b, today, n, next);
    NextIs(b, today, n, next);
    AgeThen(b, today, n, next);
  }

  // ---- The order of the result

  /** The byte order of UTF-8, which is the order of scalar values; a prefix comes first. */
  predicate TextNotAfter(s: string, t: string) {
    s == [] || (t != [] && (s[0] < t[0] || (s[0] == t[0] && TextNotAfter(s[1..], t[1..]))))
  }

  /** A missing name comes first. */
  predicate NameNotAfter(a: Option<string>, b: Option<string>) {
    a.None? || (b.Some? && TextNotAfter(a.value, b.value))
  }

  /** The comparison of `sort_by`: by day, then by name. */
  predicate NotAfter(a: Entry, b: Entry) {
    a.daysUntil < b.daysUntil || (a.daysUntil == b.daysUntil && NameNotAfter(a.fullName, b.fullName))
  }

  lemma {:induction false} TextOrder(s: string, t: string, u: string)
    ensures TextNotAfter(s, t) || TextNotAfter(t, s)
    ensures TextNotAfter(s, t) && TextNotAfter(t, u) ==> TextNotAfter(s, u)
  {
    if s != [] && t != [] {
      TextOrder(s[1..], t[1..], if u == [] then [] else u[1..]);
    }
  }

  lemma EntryOrder(a: Entry, b: Entry, c: Entry)
    ensures NotAfter(a, b) || NotAfter(b, a)
    ensures NotAfter(a, b) && NotAfter(b, c) ==> NotAfter(a, c)
  {
    var x := if a.fullName.Some? then a.fullName.value else "";
    var y := if b.fullName.Some? then b.fullName.value else "";
    var z := if c.fullName.Some? then c.fullName.value else "";
    TextOrder(x, y, z);
  }

  /** `sort_by` is stable: an entry goes behind those that do not come after it. */
  function Inserted(e: Entry, sorted: seq<Entry>): seq<Entry> {
    if sorted == [] then [e]
    else if NotAfter(sorted[0], e) then [sorted[0]] + Inserted(e, sorted[1..])
    else [e] + sorted
  }

  function Sorted(entries: seq<Entry>): seq<Entry> {
    if entries == [] then [] else Inserted(Latest(entries), Sorted(Before(entries)))
  }

  predicate Ordered(entries: seq<Entry>) {
    forall i, j :: 0 <= i < j < |entries| ==> NotAfter(entries[i], entries[j])
  }

  /** The entries that compare equal to `e`, in order. */
  function Ties(entries: seq<Entry>, e: Entry): seq<Entry> {
    if entries == [] then []
    else (if NotAfter(entries[0], e) && NotAfter(e, entries[0]) then [entries[0]] else []) + Ties(entries[1..], e)
  }

  lemma {:induction false} InsertedMembers(e: Entry, sorted: seq<Entry>)
    ensures multiset(Inserted(e, sorted)) == multiset(sorted) + multiset{e}
    ensures forall x :: x in Inserted(e, sorted) <==> x == e || x in sorted
  {
    if sorted != [] {
      assert sorted == [sorted[0]] + sorted[1..];
      if NotAfter(sorted[0], e) {
        InsertedMembers(e, sorted[1..]);
      }
    }
  }

  lemma {:induction false} InsertedOrdered(e: Entry, sorted: seq<Entry>)
    requires Ordered(sorted)
    ensures Ordered(Inserted(e, sorted))
  {
    if sorted != [] {
      if NotAfter(sorted[0], e) {
        var rest := Inserted(e, sorted[1..]);
        InsertedOrdered(e, sorted[1..]);
        InsertedMembers(e, sorted[1..]);
        forall j | 0 <= j < |rest| ensures NotAfter(sorted[0], rest[j]) {
          assert rest[j] in rest;
        }
      } else {
        forall j | 0 <= j < |sorted| ensures NotAfter(e, sorted[j]) {
          EntryOrder(e, sorted[0], sorted[j]);
        }
      }
    }
  }

  lemma {:induction false} NoTies(entries: seq<Entry>, e: Entry)
    requires forall x | x in entries :: !NotAfter(x, e)
    ensures Ties(entries, e) == []
  {
    if entries != [] {
      assert entries[0] in entries;
      NoTies(entries[1..], e);
    }
  }

  lemma {:induction false} InsertedTies(e: Entry, sorted: seq<Entry>, k: Entry)
    requires Ordered(sorted)
    ensures Ties(Inserted(e, sorted), k) ==
            Ties(sorted, k) + if NotAfter(e, k) && NotAfter(k, e) then [e] else []
  {
    if sorted != [] && NotAfter(sorted[0], e) {
      InsertedTies(e, sorted[1..], k);
      var all := Inserted(e, sorted);
      assert all[0] == sorted[0] && all[1..] == Inserted(e, sorted[1..]);
    } else if sorted != [] {
      var all := [e] + sorted;
      assert all[1..] == sorted;
      if NotAfter(e, k) && NotAfter(k, e) {
        forall j | 0 <= j < |sorted| ensures !NotAfter(sorted[j], k) {
          EntryOrder(sorted[j], k, e);
          EntryOrder(sorted[0], sorted[j], e);
        }
        NoTies(sorted, k);
      }
    }
  }

  lemma {:induction false} TiesOfBefore(entries: seq<Entry>, k: Entry)
    requires entries != []
    ensures var last := Latest(entries);
      Ties(entries, k) == Ties(Before(entries), k) + if NotAfter(last, k) && NotAfter(k, last) then [last] else []
  {
    if |entries| == 1 {
      assert entries[1..] == [] && Before(entries) == [];
    } else {
      TiesOfBefore(entries[1..], k);
      assert Before(entries)[1..] == Before(entries[1..]);
    }
  }

  /** The result is a permutation of what the scan found, soonest first and by name within a day, and
      equal entries keep their order: these three determine it. */
  lemma {:induction false} ResultIsSorted(entries: seq<Entry>, k: Entry)
    ensures Ordered(Sorted(entries))
    ensures multiset(Sorted(entries)) == multiset(entries)
    ensures Ties(Sorted(entries), k) == Ties(entries, k)
  {
    if entries != [] {
      var front, last := Before(entries), Latest(entries);
      assert entries == front + [last];
      ResultIsSorted(front, k);
      InsertedOrdered(last, Sorted(front));
      InsertedMembers(last, Sorted(front));
      InsertedTies(last, Sorted(front), k);
      TiesOfBefore(entries, k);
    }
  }

  /** The order of texts is lexicographic: a prefix first, otherwise by the first different character. */
  lemma {:induction false} TextNotAfterIff(s: string, t: string)
    ensures TextNotAfter(s, t) <==>
            || (|s| <= |t| && t[..|s|] == s)
            || exists i :: 0 <= i < |s| && i < |t| && s[..i] == t[..i] && s[i] < t[i]
  {
    if s != [] && t != [] && s[0] == t[0] {
      TextNotAfterIff(s[1..], t[1..]);
      var a, b := s[1..], t[1..];
      if |s| <= |t| {
        assert t[..|s|] == [t[0]] + b[..|a|];
        assert t[..|s|] == s <==> b[..|a|] == a;
      }
      if i :| 0 <= i < |a| && i < |b| && a[..i] == b[..i] && a[i] < b[i] {
        assert s[..i + 1] == [s[0]] + a[..i] && t[..i + 1] == [t[0]] + b[..i];
        assert s[i + 1] < t[i + 1];
      }
      if i :| 0 <= i < |s| && i < |t| && s[..i] == t[..i] && s[i] < t[i] {
        assert i > 0;
        assert a[..i - 1] == s[..i][1..] && b[..i - 1] == t[..i][1..];
        assert a[i - 1] < b[i - 1];
      }
    } else if s != [] && t != [] {
      assert s[..0] == t[..0];
    }
  }

  /** Soonest first; on one day, entries without a name first and the others by name. */
  lemma ListedInOrder(entries: seq<Entry>, i: nat, j: nat)
    requires i < j < |entries|
    ensures |Sorted(entries)| == |entries|
    ensures var a, b := Sorted(entries)[i], Sorted(entries)[j];
      && a.daysUntil <= b.daysUntil
      && (a.daysUntil == b.daysUntil ==>
            a.fullName.None? || (b.fullName.Some? && TextNotAfter(a.fullName.value, b.fullName.value)))
  {
    ResultIsSorted(entries, entries[i]);
    assert |Sorted(entries)| == |multiset(Sorted(entries))| == |multiset(entries)| == |entries|;
  }

  // ---- Nobody is missed

  /** The cards without a birthday. */
  function WithoutBirthday(cards: seq<Contact>): nat {
    if cards == [] then 0
    else WithoutBirthday(Before(cards)) + (if Parsed(Latest(cards).vcard).birthday.None? then 1 else 0)
  }

  /** The cards whose birthday does not occur again before the calendar ends. */
  function PastTheEnd(cards: seq<Contact>, today: Date): nat {
    if cards == [] then 0
    else PastTheEnd(Before(cards), today) + (if IsPastTheEnd(Latest(cards), today) then 1 else 0)
  }

  predicate IsPastTheEnd(card: Contact, today: Date) {
    match Parsed(card.vcard).birthday
    case None => false
    case Some(raw) => var b := ParseBday(raw); b.Some? && !HasNext(b.value, today)
  }

  /** No card records a birth after this date's year. */
  predicate NoLaterBirths(cards: seq<Contact>, today: Date) {
    cards != [] ==> NoLaterBirths(Before(cards), today) && NoLaterBirth(Latest(cards), today)
  }

  predicate NoLaterBirth(card: Contact, today: Date) {
    match Parsed(card.vcard).birthday
    case None => true
    case Some(raw) => var b := ParseBday(raw); b.Some? && b.value.year.Some? ==> b.value.year.value <= today.year
  }

  lemma WidestWindowHolds(card: Contact, today: Date)
    requires IsDate(today) && NoLaterBirth(card, today)
    ensures FindingOf(card, today, MAX_BIRTHDAY_DAYS).Outside? <==> IsPastTheEnd(card, today)
  {
    var raw := Parsed(card.vcard).birthday;
    if raw.Some? && ParseBday(raw.value).Some? {
      ParsedIsReal(raw.value);
      YearWindowHoldsEveryBirthday(ParseBday(raw.value).value, today);
    }
  }

  /** A scan over the widest window accounts for every card: it is listed, it has no birthday, it is
      counted as unparseable, or its birthday is past in the last year of the calendar. */
  lemma {:induction false} WidestScanMissesNobody(cards: seq<Contact>, today: Date)
    requires IsDate(today) && NoLaterBirths(cards, today)
    ensures var s := Scanned(cards, today, MAX_BIRTHDAY_DAYS);
      && s.scanned == |cards|
      && |s.birthdays| + s.unparseable + WithoutBirthday(cards) + PastTheEnd(cards, today) == |cards|
    ensures today.year < MAX_YEAR ==> PastTheEnd(cards, today) == 0
  {
    if cards != [] {
      WidestScanMissesNobody(Before(cards), today);
      WidestWindowHolds(Latest(cards), today);
    }
  }
}
