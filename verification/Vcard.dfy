/** `build_vcard` and `parse_vcard`: the printer and the parser of contact cards. */
module Vcard {
  import opened Text
  import opened VcardEscape
  import opened VcardFold

  const MAX_VCARD_BYTES := 256 * 1024

  datatype ContactInput = ContactInput(
    fullName: string,
    givenName: Option<string>,
    familyName: Option<string>,
    emails: seq<string>,
    phones: seq<string>,
    organization: Option<string>,
    title: Option<string>,
    note: Option<string>
  )

  datatype ParsedVcard = ParsedVcard(
    uid: Option<string>,
    fullName: Option<string>,
    givenName: Option<string>,
    familyName: Option<string>,
    emails: seq<string>,
    phones: seq<string>,
    organization: Option<string>,
    title: Option<string>,
    note: Option<string>,
    birthday: Option<string>,
    hasPhoto: bool
  )

  const EMPTY_CARD := ParsedVcard(None, None, None, None, [], [], None, None, None, None, false)

  datatype BuildError = InvalidUid | VcardTooLarge

  // ---- Printing

  function OrEmpty(value: Option<string>): string {
    match value
    case Some(v) => v
    case None => ""
  }

  function NonEmpty(value: Option<string>): Option<string> {
    if value.Some? && value.value == "" then None else value
  }

  predicate ValidUid(uid: string) {
    Trim(uid) != "" && ByteLen(uid) <= 512 && forall c | c in uid :: !IsControl(c)
  }

  /** One line per value. */
  function Labelled(tag: string, values: seq<string>): seq<string> {
    if values == [] then [] else [tag + EscapeText(values[0])] + Labelled(tag, values[1..])
  }

  function OptionalLine(tag: string, value: Option<string>): seq<string> {
    match NonEmpty(value)
    case Some(v) => [tag + EscapeText(v)]
    case None => []
  }

  function NameValue(contact: ContactInput): string {
    EscapeText(OrEmpty(contact.familyName)) + ";" + EscapeText(OrEmpty(contact.givenName)) + ";;;"
  }

  function Header(contact: ContactInput, uid: string): seq<string> {
    ["BEGIN:VCARD", "VERSION:4.0", "UID:" + EscapeText(uid), "FN:" + EscapeText(contact.fullName),
     "N:" + NameValue(contact)]
  }

  function AddressLines(contact: ContactInput): seq<string> {
    Labelled("EMAIL:", contact.emails) + Labelled("TEL:", contact.phones)
  }

  function DetailLines(contact: ContactInput): seq<string> {
    OptionalLine("ORG:", contact.organization)
    + OptionalLine("TITLE:", contact.title)
    + OptionalLine("NOTE:", contact.note)
  }

  /** The logical lines of the card of a contact. */
  function CardLines(contact: ContactInput, uid: string): seq<string> {
    Header(contact, uid) + AddressLines(contact) + DetailLines(contact) + ["END:VCARD"]
  }

  function Built(contact: ContactInput, uid: string): Result<string, BuildError> {
    if !ValidUid(uid) then Err(InvalidUid)
    else
      var vcard := FoldAll(CardLines(contact, uid));
      if ByteLen(vcard) > MAX_VCARD_BYTES then Err(VcardTooLarge) else Ok(vcard)
  }

  lemma FoldAllStep(before: string, lines: seq<string>)
    requires lines != []
    ensures before + FoldAll(lines) == before + Folded(lines[0]) + "\r\n" + FoldAll(lines[1..])
  {
    AppendInTurn(before, Folded(lines[0]), CRLF, FoldAll(lines[1..]));
  }

  method PushLabelled(before: seq<string>, tag: string, values: seq<string>) returns (lines: seq<string>)
    ensures lines == before + Labelled(tag, values)
  {
    lines := before;
    for i := 0 to |values|
      invariant lines + Labelled(tag, values[i..]) == before + Labelled(tag, values)
    {
      assert values[i..][1..] == values[i + 1..];
      lines := lines + [tag + EscapeText(values[i])];
    }
  }

  method JoinFolded(lines: seq<string>) returns (vcard: string)
    ensures vcard == FoldAll(lines)
  {
    vcard := "";
    for i := 0 to |lines|
      invariant vcard + FoldAll(lines[i..]) == FoldAll(lines)
    {
      var folded := FoldLine(lines[i]);
      FoldAllStep(vcard, lines[i..]);
      assert lines[i..][1..] == lines[i + 1..];
      vcard := vcard + folded + "\r\n";
    }
    assert lines[|lines|..] == [];
  }

  lemma LinesInOrder(contact: ContactInput, uid: string)
    ensures Header(contact, uid)
            + Labelled("EMAIL:", contact.emails) + Labelled("TEL:", contact.phones)
            + OptionalLine("ORG:", contact.organization) + OptionalLine("TITLE:", contact.title)
            + OptionalLine("NOTE:", contact.note) + ["END:VCARD"] == CardLines(contact, uid)
  {
    GroupLines(Header(contact, uid), Labelled("EMAIL:", contact.emails), Labelled("TEL:", contact.phones),
            OptionalLine("ORG:", contact.organization), OptionalLine("TITLE:", contact.title),
            OptionalLine("NOTE:", contact.note));
  }

  lemma GroupLines(a: seq<string>, b: seq<string>, c: seq<string>, d: seq<string>, e: seq<string>, f: seq<string>)
    ensures a + b + c + d + e + f == a + (b + c) + (d + e + f)
  {
  }

  method BuildVcard(contact: ContactInput, uid: string) returns (result: Result<string, BuildError>)
    ensures result == Built(contact, uid)
  {
    if !ValidUid(uid) {
      return Err(InvalidUid);
    }
    var lines := ["BEGIN:VCARD", "VERSION:4.0", "UID:" + EscapeText(uid),
                  "FN:" + EscapeText(contact.fullName), "N:" + NameValue(contact)];
    lines := PushLabelled(lines, "EMAIL:", contact.emails);
    lines := PushLabelled(lines, "TEL:", contact.phones);
    lines := lines + OptionalLine("ORG:", contact.organization);
    lines := lines + OptionalLine("TITLE:", contact.title);
    lines := lines + OptionalLine("NOTE:", contact.note);
    lines := lines + ["END:VCARD"];
    LinesInOrder(contact, uid);
    var vcard := JoinFolded(lines);
    if ByteLen(vcard) > MAX_VCARD_BYTES {
      return Err(VcardTooLarge);
    }
    return Ok(vcard);
  }

  // ---- Parsing

  function UpperChar(c: char): char {
    if 'a' <= c <= 'z' then c - 'a' + 'A' else c
  }

  function Upper(s: string): (r: string)
    ensures |r| == |s| && forall i :: 0 <= i < |s| ==> r[i] == UpperChar(s[i])
  {
    seq(|s|, i requires 0 <= i < |s| => UpperChar(s[i]))
  }

  function LastPiece(s: string, c: char): string {
    var pieces := Split(s, c);
    pieces[|pieces| - 1]
  }

  /** The property name: parameters and a group prefix removed, upper-cased. */
  function PropertyName(head: string): string {
    Upper(LastPiece(Split(head, ';')[0], '.'))
  }

  /** The properties that `parse_vcard` dispatches on. */
  datatype Property = Uid | Fn | N | Email | Tel | Org | Title | Note | Bday | Photo | Other

  function PropertyOf(name: string): Property {
    if name == "UID" then Uid
    else if name == "FN" then Fn
    else if name == "N" then N
    else if name == "EMAIL" then Email
    else if name == "TEL" then Tel
    else if name == "ORG" then Org
    else if name == "TITLE" then Title
    else if name == "NOTE" then Note
    else if name == "BDAY" then Bday
    else if name == "PHOTO" then Photo
    else Other
  }

  function WithProperty(parsed: ParsedVcard, property: Property, raw: string): ParsedVcard {
    var value := Unescaped(raw);
    match property
    case Uid => parsed.(uid := Some(value))
    case Fn => parsed.(fullName := Some(value))
    case N =>
      var parts := Split(raw, ';');
      parsed.(
      familyName := NonEmpty(Some(Unescaped(parts[0]))),
      givenName := if |parts| > 1 then NonEmpty(Some(Unescaped(parts[1]))) else None)
    case Email => parsed.(emails := parsed.emails + [StripPrefix(value, "mailto:")])
    case Tel => parsed.(phones := parsed.phones + [StripPrefix(value, "tel:")])
    case Org => parsed.(organization := Some(Split(value, ';')[0]))
    case Title => parsed.(title := Some(value))
    case Note => parsed.(note := Some(value))
    case Bday => parsed.(birthday := Some(value))
    case Photo => parsed.(hasPhoto := true)
    case Other => parsed
  }

  function WithLine(parsed: ParsedVcard, line: string): ParsedVcard {
    var i := IndexOf(line, ':');
    if i == |line| then parsed else WithProperty(parsed, PropertyOf(PropertyName(line[..i])), line[i + 1..])
  }

  function WithLines(parsed: ParsedVcard, lines: seq<string>): ParsedVcard
    decreases |lines|
  {
    if lines == [] then parsed else WithLines(WithLine(parsed, lines[0]), lines[1..])
  }

  function Parsed(vcard: string): ParsedVcard {
    WithLines(EMPTY_CARD, Unfolded(vcard))
  }

  method ParseVcard(vcard: string) returns (parsed: ParsedVcard)
    ensures parsed == Parsed(vcard)
  {
    parsed := EMPTY_CARD;
    var lines := UnfoldLines(vcard);
    for i := 0 to |lines|
      invariant WithLines(parsed, lines[i..]) == Parsed(vcard)
    {
      var line := lines[i];
      assert lines[i..][1..] == lines[i + 1..];
      var colon := IndexOf(line, ':');
      if colon == |line| {
        continue;
      }
      var raw := line[colon + 1..];
      parsed := AssignProperty(parsed, PropertyOf(PropertyName(line[..colon])), raw);
    }
  }

  method AssignProperty(before: ParsedVcard, property: Property, raw: string) returns (parsed: ParsedVcard)
    ensures parsed == WithProperty(before, property, raw)
  {
    parsed := before;
    var value := UnescapeText(raw);
    match property
    case Uid => parsed := parsed.(uid := Some(value));
    case Fn => parsed := parsed.(fullName := Some(value));
    case N =>
      var parts := Split(raw, ';');
      var family := UnescapeText(parts[0]);
      parsed := parsed.(familyName := NonEmpty(Some(family)), givenName := None);
      if |parts| > 1 {
        var given := UnescapeText(parts[1]);
        parsed := parsed.(givenName := NonEmpty(Some(given)));
      }
    case Email => parsed := parsed.(emails := parsed.emails + [StripPrefix(value, "mailto:")]);
    case Tel => parsed := parsed.(phones := parsed.phones + [StripPrefix(value, "tel:")]);
    case Org => parsed := parsed.(organization := Some(Split(value, ';')[0]));
    case Title => parsed := parsed.(title := Some(value));
    case Note => parsed := parsed.(note := Some(value));
    case Bday => parsed := parsed.(birthday := Some(value));
    case Photo => parsed := parsed.(hasPhoto := true);
    case Other =>
  }

  // ---- Properties do not interfere

  function PropertyOfLine(line: string): Property {
    var i := IndexOf(line, ':');
    if i == |line| then Other else PropertyOf(PropertyName(line[..i]))
  }

  /** The lines of one property. */
  function LinesOf(lines: seq<string>, property: Property): seq<string> {
    if lines == [] then []
    else (if PropertyOfLine(lines[0]) == property then [lines[0]] else []) + LinesOf(lines[1..], property)
  }

  /** Do two cards agree on what a property sets? */
  predicate AgreeOn(a: ParsedVcard, b: ParsedVcard, property: Property) {
    match property
    case Uid => a.uid == b.uid
    case Fn => a.fullName == b.fullName
    case N => a.familyName == b.familyName && a.givenName == b.givenName
    case Email => a.emails == b.emails
    case Tel => a.phones == b.phones
    case Org => a.organization == b.organization
    case Title => a.title == b.title
    case Note => a.note == b.note
    case Bday => a.birthday == b.birthday
    case Photo => a.hasPhoto == b.hasPhoto
    case Other => true
  }

  lemma OneLineAgrees(a: ParsedVcard, b: ParsedVcard, line: string, property: Property)
    requires AgreeOn(a, b, property)
    ensures AgreeOn(WithLine(a, line), if PropertyOfLine(line) == property then WithLine(b, line) else b, property)
  {
  }

  /** What a card says in one property depends on the lines of that property alone, whatever stands in
      the other lines. */
  lemma {:induction false} PropertiesAreIndependent(
    a: ParsedVcard, b: ParsedVcard, lines: seq<string>, property: Property)
    requires AgreeOn(a, b, property)
    ensures AgreeOn(WithLines(a, lines), WithLines(b, LinesOf(lines, property)), property)
    decreases |lines|
  {
    if lines != [] {
      var line, rest := lines[0], LinesOf(lines[1..], property);
      OneLineAgrees(a, b, line, property);
      if PropertyOfLine(line) == property {
        assert ([line] + rest)[1..] == rest;
        PropertiesAreIndependent(WithLine(a, line), WithLine(b, line), lines[1..], property);
      } else {
        assert [] + rest == rest;
        PropertiesAreIndependent(WithLine(a, line), b, lines[1..], property);
      }
    }
  }
}
