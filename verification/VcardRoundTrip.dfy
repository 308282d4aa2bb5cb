/** What the parser makes of a printed card, for every contact the printer accepts. */
module VcardRoundTrip {
  import opened Text
  import opened VcardEscape
  import opened VcardFold
  import opened Vcard

  /** A bare upper-case property name. */
  predicate PlainName(name: string) {
    name != [] && forall c | c in name :: 'A' <= c <= 'Z'
  }

  lemma LineOfPlainName(parsed: ParsedVcard, name: string, raw: string)
    requires PlainName(name)
    ensures WithLine(parsed, name + ":" + raw) == WithProperty(parsed, PropertyOf(name), raw)
  {
    var line := name + ":" + raw;
    IndexOfSeparated(name, ':', raw);
    assert line[..|name|] == name && line[|name| + 1..] == raw;
    IndexOfAbsent(name, ';');
    IndexOfAbsent(name, '.');
    assert Split(name, ';') == [name];
    assert Split(name, '.') == [name];
    forall i | 0 <= i < |name| ensures UpperChar(name[i]) == name[i] {
      assert name[i] in name;
    }
    assert Upper(name) == name;
  }

  /** The names that the printer writes, and what the parser takes them for. */
  lemma PrintedNames()
    ensures PropertyOf("UID") == Uid && PropertyOf("FN") == Fn && PropertyOf("N") == N
    ensures PropertyOf("EMAIL") == Email && PropertyOf("TEL") == Tel && PropertyOf("ORG") == Org
    ensures PropertyOf("TITLE") == Title && PropertyOf("NOTE") == Note
    ensures PropertyOf("BEGIN") == PropertyOf("VERSION") == PropertyOf("END") == Other
  {
    assert "EMAIL"[0] == 'E' && "TEL"[0] == 'T' && "ORG"[0] == 'O' && "TITLE"[0] == 'T' && "NOTE"[0] == 'N';
    assert "UID"[0] == 'U' && "BEGIN"[0] == 'B' && "END"[0] == 'E' && "BDAY"[0] == 'B' && "PHOTO"[0] == 'P';
  }

  lemma LabelledLine(parsed: ParsedVcard, name: string, tag: string, value: string)
    requires PlainName(name) && tag == name + ":"
    ensures WithLine(parsed, tag + EscapeText(value)) == WithProperty(parsed, PropertyOf(name), EscapeText(value))
  {
    LineOfPlainName(parsed, name, EscapeText(value));
  }

  lemma {:induction false} WithLinesConcat(parsed: ParsedVcard, a: seq<string>, b: seq<string>)
    ensures WithLines(parsed, a + b) == WithLines(WithLines(parsed, a), b)
    decreases |a|
  {
    if a == [] {
      assert a + b == b;
    } else {
      assert (a + b)[1..] == a[1..] + b;
      WithLinesConcat(WithLine(parsed, a[0]), a[1..], b);
    }
  }

  lemma OneLine(parsed: ParsedVcard, line: string)
    ensures WithLines(parsed, [line]) == WithLine(parsed, line)
  {
    assert [line][1..] == [];
  }

  lemma FirstLine(parsed: ParsedVcard, line: string, rest: seq<string>)
    ensures WithLines(parsed, [line] + rest) == WithLines(WithLine(parsed, line), rest)
  {
    assert ([line] + rest)[1..] == rest;
  }

  // ---- What each field becomes

  /** Each value without carriage returns and without its URI scheme. */
  function Recovered(values: seq<string>, scheme: string): seq<string> {
    if values == [] then []
    else [StripPrefix(StripCr(values[0]), scheme)] + Recovered(values[1..], scheme)
  }

  function RecoveredText(value: Option<string>): Option<string> {
    match NonEmpty(value)
    case Some(v) => Some(StripCr(v))
    case None => None
  }

  /** Only the part of an organisation before its first `;` survives. */
  function RecoveredOrganization(value: Option<string>): Option<string> {
    match NonEmpty(value)
    case Some(v) => Some(Split(StripCr(v), ';')[0])
    case None => None
  }

  /** The first name component the parser sees: it stops at a `;`, leaving the escaping backslash. */
  function FirstPart(s: string): string {
    var i := IndexOf(s, ';');
    if i == |s| then StripCr(s) else StripCr(s[..i]) + "\\"
  }

  function RecoveredFamily(family: string): Option<string> {
    NonEmpty(Some(FirstPart(family)))
  }

  /** A `;` in the family name pushes the text behind it into the given name. */
  function RecoveredGiven(family: string, given: string): Option<string> {
    var i := IndexOf(family, ';');
    NonEmpty(Some(if i == |family| then FirstPart(given) else FirstPart(family[i + 1..])))
  }

  function Recoverable(contact: ContactInput, uid: string): ParsedVcard {
    var family, given := OrEmpty(contact.familyName), OrEmpty(contact.givenName);
    ParsedVcard(
      Some(uid),
      Some(StripCr(contact.fullName)),
      RecoveredGiven(family, given),
      RecoveredFamily(family),
      Recovered(contact.emails, "mailto:"),
      Recovered(contact.phones, "tel:"),
      RecoveredOrganization(contact.organization),
      RecoveredText(contact.title),
      RecoveredText(contact.note),
      None,
      false)
  }

  // ---- The structured name

  lemma EscapeOnceOfOne(c: char)
    ensures EscapeOnce([c]) == EscapeChar(c)
  {
    assert EscapeOnce([c]) == EscapeChar(c) + EscapeOnce([]);
  }

  lemma EscapeAround(a: string, c: char, b: string, x: string, y: string)
    requires EscapeChar(c) == x + y
    ensures EscapeOnce(a + [c] + b) == EscapeOnce(a) + x + y + EscapeOnce(b)
  {
    EscapeOnceConcat(a + [c], b);
    EscapeOnceConcat(a, [c]);
    EscapeOnceOfOne(c);
    assert EscapeOnce(a) + (x + y) == EscapeOnce(a) + x + y;
  }

  lemma AroundIndex(s: string, i: nat, c: char)
    requires i < |s| && s[i] == c
    ensures s == s[..i] + [c] + s[i + 1..]
  {
  }

  lemma EscapeAroundSemicolon(s: string, i: nat)
    requires i < |s| && s[i] == ';'
    ensures EscapeOnce(s) == EscapeOnce(s[..i]) + "\\" + ";" + EscapeOnce(s[i + 1..])
  {
    AroundIndex(s, i, ';');
    EscapeAround(s[..i], ';', s[i + 1..], "\\", ";");
  }

  /** Without a `;`, the first component is the whole text. */
  lemma WholeComponent(s: string, rest: string)
    requires ';' !in s
    ensures Split(EscapeOnce(s) + ";" + rest, ';') == [EscapeOnce(s)] + Split(rest, ';')
    ensures Unescaped(EscapeOnce(s)) == StripCr(s)
  {
    EscapeOnceKeepsAbsence(s);
    SplitSeparated(EscapeOnce(s), ';', rest);
    UnescapeOnceThen(s, []);
    assert EscapeOnce(s) + [] == EscapeOnce(s);
  }

  lemma CutText(s: string, i: nat, rest: string, first: string, behind: string)
    requires i < |s| && s[i] == ';'
    requires first == EscapeOnce(s[..i]) + "\\" && behind == EscapeOnce(s[i + 1..]) + ";" + rest
    ensures EscapeOnce(s) + ";" + rest == first + [';'] + behind
  {
    EscapeAroundSemicolon(s, i);
  }

  lemma CutIsOnePiece(s: string, i: nat)
    requires i < |s| && ';' !in s[..i]
    ensures ';' !in EscapeOnce(s[..i]) + "\\"
  {
    EscapeOnceKeepsAbsence(s[..i]);
  }

  /** With a `;`, it ends there, and keeps the backslash that escaped it. */
  lemma CutComponent(s: string, i: nat, rest: string)
    requires i < |s| && s[i] == ';' && ';' !in s[..i]
    ensures Split(EscapeOnce(s) + ";" + rest, ';') ==
            [EscapeOnce(s[..i]) + "\\"] + Split(EscapeOnce(s[i + 1..]) + ";" + rest, ';')
    ensures Unescaped(EscapeOnce(s[..i]) + "\\") == StripCr(s[..i]) + "\\"
  {
    var first, behind := EscapeOnce(s[..i]) + "\\", EscapeOnce(s[i + 1..]) + ";" + rest;
    CutText(s, i, rest, first, behind);
    CutIsOnePiece(s, i);
    SplitSeparated(first, ';', behind);
    UnescapeOnceThen(s[..i], "\\");
  }

  /** The first raw component, unescaped, and what remains to be split behind it. */
  lemma FirstComponent(s: string, rest: string)
    ensures var parts := Split(EscapeOnce(s) + ";" + rest, ';');
      var i := IndexOf(s, ';');
      && Unescaped(parts[0]) == FirstPart(s)
      && parts[1..] == Split(if i == |s| then rest else EscapeOnce(s[i + 1..]) + ";" + rest, ';')
  {
    var i := IndexOf(s, ';');
    if i == |s| {
      assert s[..i] == s;
      WholeComponent(s, rest);
    } else {
      CutComponent(s, i, rest);
    }
  }

  lemma TwoComponents(family: string, given: string)
    ensures var parts := Split(EscapeOnce(family) + ";" + (EscapeOnce(given) + ";" + ";;"), ';');
      && |parts| > 1
      && NonEmpty(Some(Unescaped(parts[0]))) == RecoveredFamily(family)
      && NonEmpty(Some(Unescaped(parts[1]))) == RecoveredGiven(family, given)
  {
    var tail := EscapeOnce(given) + ";" + ";;";
    FirstComponent(family, tail);
    var i := IndexOf(family, ';');
    if i < |family| {
      FirstComponent(family[i + 1..], tail);
    } else {
      FirstComponent(given, ";;");
    }
  }

  lemma NameComponents(parsed: ParsedVcard, contact: ContactInput)
    ensures WithProperty(parsed, N, NameValue(contact)) ==
            parsed.(familyName := RecoveredFamily(OrEmpty(contact.familyName)),
            givenName := RecoveredGiven(OrEmpty(contact.familyName), OrEmpty(contact.givenName)))
  {
    var family, given := OrEmpty(contact.familyName), OrEmpty(contact.givenName);
    EscapeIsOnePass(family);
    EscapeIsOnePass(given);
    assert NameValue(contact) == EscapeOnce(family) + ";" + (EscapeOnce(given) + ";" + ";;");
    TwoComponents(family, given);
  }

  // ---- The other lines

  lemma AppendFirst(before: seq<string>, first: string, rest: seq<string>)
    ensures before + [first] + rest == before + ([first] + rest)
  {
  }

  lemma EmailLine(parsed: ParsedVcard, tag: string, value: string)
    requires tag == "EMAIL:"
    ensures WithLine(parsed, tag + EscapeText(value)) ==
            parsed.(emails := parsed.emails + [StripPrefix(StripCr(value), "mailto:")])
  {
    PrintedNames();
    LabelledLine(parsed, "EMAIL", tag, value);
    UnescapeAfterEscape(value);
  }

  lemma {:induction false} EmailLines(parsed: ParsedVcard, tag: string, values: seq<string>)
    requires tag == "EMAIL:"
    ensures WithLines(parsed, Labelled(tag, values)) ==
            parsed.(emails := parsed.emails + Recovered(values, "mailto:"))
    decreases |values|
  {
    if values == [] {
      assert parsed.emails + [] == parsed.emails;
    } else {
      var line, rest := tag + EscapeText(values[0]), Labelled(tag, values[1..]);
      var first := StripPrefix(StripCr(values[0]), "mailto:");
      var next := parsed.(emails := parsed.emails + [first]);
      var behind := Recovered(values[1..], "mailto:");
      assert WithLine(parsed, line) == next by {
        EmailLine(parsed, tag, values[0]);
      }
      assert WithLines(parsed, [line] + rest) == WithLines(next, rest) by {
        FirstLine(parsed, line, rest);
      }
      assert WithLines(next, rest) == next.(emails := next.emails + behind) by {
        EmailLines(next, tag, values[1..]);
      }
      AppendFirst(parsed.emails, first, behind);
    }
  }

  lemma PhoneLine(parsed: ParsedVcard, tag: string, value: string)
    requires tag == "TEL:"
    ensures WithLine(parsed, tag + EscapeText(value)) ==
            parsed.(phones := parsed.phones + [StripPrefix(StripCr(value), "tel:")])
  {
    PrintedNames();
    LabelledLine(parsed, "TEL", tag, value);
    UnescapeAfterEscape(value);
  }

  lemma {:induction false} PhoneLines(parsed: ParsedVcard, tag: string, values: seq<string>)
    requires tag == "TEL:"
    ensures WithLines(parsed, Labelled(tag, values)) ==
            parsed.(phones := parsed.phones + Recovered(values, "tel:"))
    decreases |values|
  {
    if values == [] {
      assert parsed.phones + [] == parsed.phones;
    } else {
      var line, rest := tag + EscapeText(values[0]), Labelled(tag, values[1..]);
      var first := StripPrefix(StripCr(values[0]), "tel:");
      var next := parsed.(phones := parsed.phones + [first]);
      var behind := Recovered(values[1..], "tel:");
      assert WithLine(parsed, line) == next by {
        PhoneLine(parsed, tag, values[0]);
      }
      assert WithLines(parsed, [line] + rest) == WithLines(next, rest) by {
        FirstLine(parsed, line, rest);
      }
      assert WithLines(next, rest) == next.(phones := next.phones + behind) by {
        PhoneLines(next, tag, values[1..]);
      }
      AppendFirst(parsed.phones, first, behind);
    }
  }

  lemma OrganizationLine(parsed: ParsedVcard, tag: string, value: Option<string>)
    requires tag == "ORG:" && parsed.organization == None
    ensures WithLines(parsed, OptionalLine(tag, value)) ==
            parsed.(organization := RecoveredOrganization(value))
  {
    if NonEmpty(value).Some? {
      PrintedNames();
      LabelledLine(parsed, "ORG", tag, value.value);
      UnescapeAfterEscape(value.value);
      OneLine(parsed, tag + EscapeText(value.value));
    }
  }

  lemma TitleLine(parsed: ParsedVcard, tag: string, value: Option<string>)
    requires tag == "TITLE:" && parsed.title == None
    ensures WithLines(parsed, OptionalLine(tag, value)) == parsed.(title := RecoveredText(value))
  {
    if NonEmpty(value).Some? {
      PrintedNames();
      LabelledLine(parsed, "TITLE", tag, value.value);
      UnescapeAfterEscape(value.value);
      OneLine(parsed, tag + EscapeText(value.value));
    }
  }

  lemma NoteLine(parsed: ParsedVcard, tag: string, value: Option<string>)
    requires tag == "NOTE:" && parsed.note == None
    ensures WithLines(parsed, OptionalLine(tag, value)) == parsed.(note := RecoveredText(value))
  {
    if NonEmpty(value).Some? {
      PrintedNames();
      LabelledLine(parsed, "NOTE", tag, value.value);
      UnescapeAfterEscape(value.value);
      OneLine(parsed, tag + EscapeText(value.value));
    }
  }

  /** A line of a property that the parser does not know changes nothing. */
  lemma OtherLine(parsed: ParsedVcard, name: string, raw: string, line: string)
    requires name in {"BEGIN", "VERSION", "END"} && line == name + ":" + raw
    ensures WithLine(parsed, line) == parsed
  {
    PrintedNames();
    LineOfPlainName(parsed, name, raw);
  }

  lemma UidLine(parsed: ParsedVcard, tag: string, uid: string)
    requires tag == "UID:"
    ensures WithLine(parsed, tag + EscapeText(uid)) == parsed.(uid := Some(StripCr(uid)))
  {
    PrintedNames();
    LabelledLine(parsed, "UID", tag, uid);
    UnescapeAfterEscape(uid);
  }

  lemma FullNameLine(parsed: ParsedVcard, tag: string, fullName: string)
    requires tag == "FN:"
    ensures WithLine(parsed, tag + EscapeText(fullName)) == parsed.(fullName := Some(StripCr(fullName)))
  {
    PrintedNames();
    LabelledLine(parsed, "FN", tag, fullName);
    UnescapeAfterEscape(fullName);
  }

  lemma NameTag(parsed: ParsedVcard, tag: string, raw: string)
    requires tag == "N:"
    ensures WithLine(parsed, tag + raw) == WithProperty(parsed, N, raw)
  {
    PrintedNames();
    assert tag == "N" + ":";
    LineOfPlainName(parsed, "N", raw);
  }

  lemma NameLine(parsed: ParsedVcard, tag: string, contact: ContactInput)
    requires tag == "N:"
    ensures WithLine(parsed, tag + NameValue(contact)) ==
            parsed.(familyName := RecoveredFamily(OrEmpty(contact.familyName)),
            givenName := RecoveredGiven(OrEmpty(contact.familyName), OrEmpty(contact.givenName)))
  {
    NameTag(parsed, tag, NameValue(contact));
    NameComponents(parsed, contact);
  }

  /** The five lines in front of the address lines. */
  lemma HeaderLines(lines: seq<string>, contact: ContactInput, uid: string)
    requires |lines| == 5
    requires lines[0] == "BEGIN:VCARD" && lines[1] == "VERSION:4.0"
    requires lines[2] == "UID:" + EscapeText(uid) && lines[3] == "FN:" + EscapeText(contact.fullName)
    requires lines[4] == "N:" + NameValue(contact)
    ensures WithLines(EMPTY_CARD, lines) ==
            EMPTY_CARD.(
            uid := Some(StripCr(uid)),
            fullName := Some(StripCr(contact.fullName)),
            familyName := RecoveredFamily(OrEmpty(contact.familyName)),
            givenName := RecoveredGiven(OrEmpty(contact.familyName), OrEmpty(contact.givenName)))
  {
    var c0 := EMPTY_CARD;
    OtherLine(c0, "BEGIN", "VCARD", lines[0]);
    OtherLine(c0, "VERSION", "4.0", lines[1]);
    UidLine(c0, "UID:", uid);
    var c1 := c0.(uid := Some(StripCr(uid)));
    FullNameLine(c1, "FN:", contact.fullName);
    var c2 := c1.(fullName := Some(StripCr(contact.fullName)));
    NameLine(c2, "N:", contact);
    FiveLines(c0, lines);
  }

  lemma FiveLines(parsed: ParsedVcard, lines: seq<string>)
    requires |lines| == 5
    ensures WithLines(parsed, lines) ==
            WithLine(WithLine(WithLine(WithLine(WithLine(parsed, lines[0]), lines[1]), lines[2]), lines[3]), lines[4])
  {
    var c1 := WithLine(parsed, lines[0]);
    var c2 := WithLine(c1, lines[1]);
    var c3 := WithLine(c2, lines[2]);
    var c4 := WithLine(c3, lines[3]);
    assert WithLines(parsed, lines) == WithLines(c1, lines[1..]);
    assert lines[1..][1..] == lines[2..] && WithLines(c1, lines[1..]) == WithLines(c2, lines[2..]);
    assert lines[2..][1..] == lines[3..] && WithLines(c2, lines[2..]) == WithLines(c3, lines[3..]);
    assert lines[3..][1..] == lines[4..] && WithLines(c3, lines[3..]) == WithLines(c4, lines[4..]);
    OneLine(c4, lines[4]);
    assert lines[4..] == [lines[4]];
  }

  // ---- The round trip

  lemma {:induction false} LabelledFoldable(tag: string, values: seq<string>)
    requires Foldable(tag) && tag != []
    ensures forall line | line in Labelled(tag, values) :: Foldable(line)
  {
    if values != [] {
      EscapedTextIsSafe(values[0]);
      LabelledFoldable(tag, values[1..]);
    }
  }

  lemma OptionalFoldable(tag: string, value: Option<string>)
    requires Foldable(tag) && tag != []
    ensures forall line | line in OptionalLine(tag, value) :: Foldable(line)
  {
    if NonEmpty(value).Some? {
      EscapedTextIsSafe(value.value);
    }
  }

  lemma HeaderFoldable(lines: seq<string>, contact: ContactInput, uid: string)
    requires |lines| == 5
    requires lines[0] == "BEGIN:VCARD" && lines[1] == "VERSION:4.0"
    requires lines[2] == "UID:" + EscapeText(uid) && lines[3] == "FN:" + EscapeText(contact.fullName)
    requires lines[4] == "N:" + NameValue(contact)
    ensures forall line | line in lines :: Foldable(line)
  {
    EscapedTextIsSafe(uid);
    EscapedTextIsSafe(contact.fullName);
    EscapedTextIsSafe(OrEmpty(contact.familyName));
    EscapedTextIsSafe(OrEmpty(contact.givenName));
  }

  /** No line of a card holds a line break or starts blank, whatever the fields contain. */
  lemma CardLinesFoldable(contact: ContactInput, uid: string)
    ensures forall line | line in CardLines(contact, uid) :: Foldable(line)
  {
    HeaderFoldable(Header(contact, uid), contact, uid);
    LabelledFoldable("EMAIL:", contact.emails);
    LabelledFoldable("TEL:", contact.phones);
    OptionalFoldable("ORG:", contact.organization);
    OptionalFoldable("TITLE:", contact.title);
    OptionalFoldable("NOTE:", contact.note);
    assert Foldable("END:VCARD");
  }

  lemma AddressLinesParse(parsed: ParsedVcard, contact: ContactInput)
    requires parsed.emails == [] && parsed.phones == []
    ensures WithLines(parsed, AddressLines(contact)) ==
            parsed.(emails := Recovered(contact.emails, "mailto:"), phones := Recovered(contact.phones, "tel:"))
  {
    EmailLines(parsed, "EMAIL:", contact.emails);
    assert [] + Recovered(contact.emails, "mailto:") == Recovered(contact.emails, "mailto:");
    assert [] + Recovered(contact.phones, "tel:") == Recovered(contact.phones, "tel:");
    var next := parsed.(emails := Recovered(contact.emails, "mailto:"));
    PhoneLines(next, "TEL:", contact.phones);
    WithLinesConcat(parsed, Labelled("EMAIL:", contact.emails), Labelled("TEL:", contact.phones));
  }

  lemma DetailLinesParse(parsed: ParsedVcard, contact: ContactInput)
    requires parsed.organization == None && parsed.title == None && parsed.note == None
    ensures WithLines(parsed, DetailLines(contact)) ==
            parsed.(
            organization := RecoveredOrganization(contact.organization),
            title := RecoveredText(contact.title),
            note := RecoveredText(contact.note))
  {
    var org, title := OptionalLine("ORG:", contact.organization), OptionalLine("TITLE:", contact.title);
    OrganizationLine(parsed, "ORG:", contact.organization);
    var c3 := parsed.(organization := RecoveredOrganization(contact.organization));
    TitleLine(c3, "TITLE:", contact.title);
    var c4 := c3.(title := RecoveredText(contact.title));
    NoteLine(c4, "NOTE:", contact.note);
    WithLinesConcat(parsed, org + title, OptionalLine("NOTE:", contact.note));
    WithLinesConcat(parsed, org, title);
  }

  lemma GroupSections(a: seq<string>, b: seq<string>, c: seq<string>, last: string, empty: string)
    ensures a + b + c + [last] + [empty] == a + (b + (c + [last, empty]))
  {
  }

  /** The parser reads the logical lines of a card back into its fields. */
  lemma CardLinesParse(contact: ContactInput, uid: string)
    ensures WithLines(EMPTY_CARD, CardLines(contact, uid) + [""]) ==
            Recoverable(contact, uid).(uid := Some(StripCr(uid)))
  {
    var header, addresses, details := Header(contact, uid), AddressLines(contact), DetailLines(contact);
    var end := ["END:VCARD", ""];
    GroupSections(header, addresses, details, "END:VCARD", "");
    HeaderLines(header, contact, uid);
    var c0 := WithLines(EMPTY_CARD, header);
    AddressLinesParse(c0, contact);
    var c1 := WithLines(c0, addresses);
    DetailLinesParse(c1, contact);
    var c2 := WithLines(c1, details);
    FinalLines(c2, end);
    WithLinesConcat(EMPTY_CARD, header, addresses + (details + end));
    WithLinesConcat(c0, addresses, details + end);
    WithLinesConcat(c1, details, end);
  }

  lemma FinalLines(parsed: ParsedVcard, lines: seq<string>)
    requires |lines| == 2 && lines[0] == "END:VCARD" && lines[1] == ""
    ensures WithLines(parsed, lines) == parsed
  {
    OtherLine(parsed, "END", "VCARD", lines[0]);
    assert lines == [lines[0]] + lines[1..] && lines[1..] == [lines[1]];
    FirstLine(parsed, lines[0], lines[1..]);
    OneLine(parsed, lines[1]);
  }

  lemma ValidUidHasNoCr(uid: string)
    requires ValidUid(uid)
    ensures StripCr(uid) == uid
  {
    assert IsControl('\r');
    StripCrIdentity(uid);
  }

  /** For every contact and UID the printer accepts, the parser returns exactly the recoverable card. */
  lemma ParseInvertsBuild(contact: ContactInput, uid: string)
    ensures Built(contact, uid).Ok? ==> Parsed(Built(contact, uid).value) == Recoverable(contact, uid)
  {
    CardLinesFoldable(contact, uid);
    UnfoldInvertsFold(CardLines(contact, uid));
    CardLinesParse(contact, uid);
    if ValidUid(uid) {
      ValidUidHasNoCr(uid);
    }
  }

  // ---- When nothing is lost

  /** The card that a lossless round trip would return. */
  function Verbatim(contact: ContactInput, uid: string): ParsedVcard {
    ParsedVcard(Some(uid), Some(contact.fullName), contact.givenName, contact.familyName, contact.emails,
                contact.phones, contact.organization, contact.title, contact.note, None, false)
  }

  predicate CleanText(s: string) {
    '\r' !in s
  }

  predicate CleanPart(s: string) {
    '\r' !in s && ';' !in s
  }

  predicate CleanValues(values: seq<string>, scheme: string) {
    forall v | v in values :: CleanText(v) && !StartsWith(v, scheme)
  }

  predicate CleanOptionalPart(value: Option<string>) {
    value.Some? ==> value.value != "" && CleanPart(value.value)
  }

  predicate CleanOptionalText(value: Option<string>) {
    value.Some? ==> value.value != "" && CleanText(value.value)
  }

  /** What a caller can check before the call to know that a contact survives unchanged. */
  predicate Lossless(contact: ContactInput) {
    && CleanText(contact.fullName)
    && CleanOptionalPart(contact.familyName)
    && CleanOptionalPart(contact.givenName)
    && CleanOptionalPart(contact.organization)
    && CleanOptionalText(contact.title)
    && CleanOptionalText(contact.note)
    && CleanValues(contact.emails, "mailto:")
    && CleanValues(contact.phones, "tel:")
  }

  lemma StripCrUnchanged(s: string)
    ensures StripCr(s) == s <==> CleanText(s)
  {
    if CleanText(s) {
      StripCrIdentity(s);
    }
  }

  lemma {:induction false} ValuesUnchanged(values: seq<string>, scheme: string)
    requires scheme != []
    ensures Recovered(values, scheme) == values <==> CleanValues(values, scheme)
  {
    if values != [] {
      var v := values[0];
      StripCrUnchanged(v);
      ValuesUnchanged(values[1..], scheme);
      var r := StripPrefix(StripCr(v), scheme);
      assert forall c | c in r :: c in StripCr(v);
      assert r == v <==> CleanText(v) && !StartsWith(v, scheme);
      assert values == [v] + values[1..];
      assert Recovered(values, scheme) == [r] + Recovered(values[1..], scheme);
      assert Recovered(values, scheme) == values ==>
        Recovered(values, scheme)[0] == values[0] && Recovered(values, scheme)[1..] == values[1..];
    }
  }

  lemma StripCrAround(a: string, c: char, b: string)
    requires c != '\r'
    ensures StripCr(a + [c] + b) == StripCr(a) + [c] + StripCr(b)
  {
    StripCrConcat(a + [c], b);
    StripCrConcat(a, [c]);
    StripCrIdentity([c]);
  }

  lemma FirstPartStops(s: string, i: nat)
    requires i == IndexOf(s, ';') && i < |s|
    ensures |StripCr(s[..i])| < |StripCr(s)| && StripCr(s)[|StripCr(s[..i])|] == ';'
    ensures ';' !in FirstPart(s)
  {
    AroundIndex(s, i, ';');
    StripCrAround(s[..i], ';', s[i + 1..]);
    StripCrMember(s[..i], ';');
  }

  lemma FirstPartUnchanged(s: string)
    ensures FirstPart(s) == StripCr(s) <==> ';' !in s
    ensures FirstPart(s) == s <==> CleanPart(s)
  {
    StripCrUnchanged(s);
    var i := IndexOf(s, ';');
    if i < |s| {
      FirstPartStops(s, i);
      assert s[i] == ';';
      assert FirstPart(s)[|StripCr(s[..i])|] == '\\';
    }
  }

  /** The names come back exactly when neither holds a `;`. */
  lemma NamesSurviveIff(contact: ContactInput, uid: string)
    ensures Built(contact, uid).Ok? ==>
      var family, given := OrEmpty(contact.familyName), OrEmpty(contact.givenName);
      var parsed := Parsed(Built(contact, uid).value);
      && parsed.familyName == NonEmpty(Some(StripCr(family)))
      && parsed.givenName == NonEmpty(Some(StripCr(given)))
      <==> ';' !in family && ';' !in given
  {
    var family, given := OrEmpty(contact.familyName), OrEmpty(contact.givenName);
    ParseInvertsBuild(contact, uid);
    FirstPartUnchanged(family);
    FirstPartUnchanged(given);
    FirstPartNonEmpty(family);
    FirstPartNonEmpty(given);
  }

  lemma FirstPartNonEmpty(s: string)
    ensures FirstPart(s) == "" || StripCr(s) == "" ==> FirstPart(s) == StripCr(s)
  {
    StripCrMember(s, ';');
  }

  lemma OrganizationUnchanged(s: string)
    ensures Split(StripCr(s), ';')[0] == StripCr(s) <==> ';' !in s
  {
    StripCrMember(s, ';');
    var i := IndexOf(StripCr(s), ';');
    assert Split(StripCr(s), ';')[0] == StripCr(s)[..i];
  }

  /** A given organisation comes back, up to carriage returns, exactly when it holds no `;`. */
  lemma OrganizationSurvivesIff(contact: ContactInput, uid: string)
    requires NonEmpty(contact.organization).Some?
    ensures Built(contact, uid).Ok? ==>
      (Parsed(Built(contact, uid).value).organization == Some(StripCr(contact.organization.value))
       <==> ';' !in contact.organization.value)
  {
    ParseInvertsBuild(contact, uid);
    OrganizationUnchanged(contact.organization.value);
  }

  lemma PartUnchanged(value: Option<string>)
    ensures NonEmpty(Some(FirstPart(OrEmpty(value)))) == value <==> CleanOptionalPart(value)
  {
    FirstPartUnchanged(OrEmpty(value));
  }

  lemma TextUnchanged(value: Option<string>)
    ensures RecoveredText(value) == value <==> CleanOptionalText(value)
  {
    StripCrUnchanged(OrEmpty(value));
  }

  lemma OrganizationPartUnchanged(value: Option<string>)
    ensures RecoveredOrganization(value) == value <==> CleanOptionalPart(value)
  {
    var s := OrEmpty(value);
    StripCrUnchanged(s);
    OrganizationUnchanged(s);
    var r := StripCr(s);
    var i := IndexOf(r, ';');
    assert Split(r, ';')[0] == r[..i];
    assert '\r' !in r[..i];
  }

  /** A contact that the printer accepts round-trips without any loss exactly when it is `Lossless`. */
  lemma RoundTripIff(contact: ContactInput, uid: string)
    ensures Built(contact, uid).Ok? ==>
      (Parsed(Built(contact, uid).value) == Verbatim(contact, uid) <==> Lossless(contact))
  {
    ParseInvertsBuild(contact, uid);
    StripCrUnchanged(contact.fullName);
    PartUnchanged(contact.familyName);
    PartUnchanged(contact.givenName);
    OrganizationPartUnchanged(contact.organization);
    TextUnchanged(contact.title);
    TextUnchanged(contact.note);
    ValuesUnchanged(contact.emails, "mailto:");
    ValuesUnchanged(contact.phones, "tel:");
  }

  lemma SemicolonParts(front: string, behind: string, given: string)
    requires CleanPart(front) && CleanPart(behind)
    ensures FirstPart(front + [';'] + behind) == front + "\\"
    ensures RecoveredGiven(front + [';'] + behind, given) == NonEmpty(Some(behind))
  {
    var family := front + [';'] + behind;
    IndexOfSeparated(front, ';', behind);
    assert family[..|front|] == front && family[|front| + 1..] == behind;
    StripCrUnchanged(front);
    FirstPartUnchanged(behind);
  }

  /** What a `;` in the family name does: the text before it comes back with a backslash, the text
      behind it becomes the given name, and the given name itself is lost. */
  lemma SemicolonShiftsNames(contact: ContactInput, uid: string, front: string, behind: string)
    requires contact.familyName == Some(front + [';'] + behind)
    requires CleanPart(front) && CleanPart(behind) && behind != ""
    ensures Built(contact, uid).Ok? ==>
      var parsed := Parsed(Built(contact, uid).value);
      parsed.familyName == Some(front + "\\") && parsed.givenName == Some(behind)
  {
    ParseInvertsBuild(contact, uid);
    SemicolonParts(front, behind, OrEmpty(contact.givenName));
  }
}
