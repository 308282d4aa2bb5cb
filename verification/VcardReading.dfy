/** What the parser makes of a card that any program wrote: a reference reading of its lines, by the
    names of the properties.
 */
module VcardReading {
  import opened Text
  import opened Runs
  import opened VcardEscape
  import opened Vcard
  import opened VcardUnfold

  // ---- Lines as RFC 6350 section 3.3 builds them

  /** `[group.]name[;parameters]:value`, in raw form. */
  datatype ContentLine = ContentLine(group: Option<string>, name: string, parameters: Option<string>, value: string)

  predicate ValidContent(l: ContentLine) {
    && ':' !in l.name && ';' !in l.name && '.' !in l.name
    && (l.group.Some? ==> ':' !in l.group.value && ';' !in l.group.value)
    && (l.parameters.Some? ==> ':' !in l.parameters.value)
  }

  function GroupText(l: ContentLine): string {
    if l.group.Some? then l.group.value + ['.'] else []
  }

  function ParameterText(l: ContentLine): string {
    if l.parameters.Some? then [';'] + l.parameters.value else []
  }

  function LineText(l: ContentLine): string {
    GroupText(l) + l.name + ParameterText(l) + [':'] + l.value
  }

  /** `s` is `name`, an upper-case word, in any letter case. */
  predicate Spells(s: string, name: string) {
    |s| == |name| && forall i :: 0 <= i < |s| ==>
      s[i] == name[i] || ('A' <= name[i] <= 'Z' && s[i] as int == name[i] as int + 32)
  }

  /** The values of the lines with this name, in order. */
  function ValuesOf(lines: seq<ContentLine>, name: string): seq<string> {
    if lines == [] then []
    else ValuesOf(Before(lines), name) + if Spells(Latest(lines).name, name) then [Latest(lines).value] else []
  }

  // ---- The reference reading

  function LastText(values: seq<string>): Option<string> {
    if values == [] then None else Some(Unescaped(Latest(values)))
  }

  /** The part of a text before its first `;`. */
  function UpToSemicolon(s: string): string {
    s[..IndexOf(s, ';')]
  }

  /** The part between the first and the second `;`, if there is a first. */
  function SecondPart(s: string): Option<string> {
    var i := IndexOf(s, ';');
    if i == |s| then None else Some(UpToSemicolon(s[i + 1..]))
  }

  function NonEmptyText(raw: string): Option<string> {
    if Unescaped(raw) == "" then None else Some(Unescaped(raw))
  }

  function FamilyOf(values: seq<string>): Option<string> {
    if values == [] then None else NonEmptyText(UpToSemicolon(Latest(values)))
  }

  function GivenOf(values: seq<string>): Option<string> {
    if values == [] then None else
      match SecondPart(Latest(values))
      case None => None
      case Some(part) => NonEmptyText(part)
  }

  function OrganizationOf(values: seq<string>): Option<string> {
    if values == [] then None else Some(UpToSemicolon(Unescaped(Latest(values))))
  }

  function WithoutScheme(s: string, scheme: string): string {
    if |scheme| <= |s| && s[..|scheme|] == scheme then s[|scheme|..] else s
  }

  function AddressesOf(values: seq<string>, scheme: string): seq<string> {
    if values == [] then []
    else AddressesOf(Before(values), scheme) + [WithoutScheme(Unescaped(Latest(values)), scheme)]
  }

  /** The last line of a name counts, addresses are collected in order, and any photo counts. */
  function CardOf(lines: seq<ContentLine>): ParsedVcard {
    ParsedVcard(
      LastText(ValuesOf(lines, "UID")),
      LastText(ValuesOf(lines, "FN")),
      GivenOf(ValuesOf(lines, "N")),
      FamilyOf(ValuesOf(lines, "N")),
      AddressesOf(ValuesOf(lines, "EMAIL"), "mailto:"),
      AddressesOf(ValuesOf(lines, "TEL"), "tel:"),
      OrganizationOf(ValuesOf(lines, "ORG")),
      LastText(ValuesOf(lines, "TITLE")),
      LastText(ValuesOf(lines, "NOTE")),
      LastText(ValuesOf(lines, "BDAY")),
      ValuesOf(lines, "PHOTO") != [])
  }

  // ---- One line

  lemma {:induction false} LastPieceBehind(front: string, c: char, piece: string)
    requires c !in piece
    ensures LastPiece(front + [c] + piece, c) == piece
    decreases |front|
  {
    var i := IndexOf(front, c);
    if i == |front| {
      SplitSeparated(front, c, piece);
      assert front[..i] == front;
      IndexOfAbsent(piece, c);
    } else {
      var rest := front[i + 1..] + [c] + piece;
      assert front + [c] + piece == front[..i] + [c] + rest;
      SplitSeparated(front[..i], c, rest);
      LastPieceBehind(front[i + 1..], c, piece);
    }
  }

  lemma WholePiece(s: string, c: char)
    requires c !in s
    ensures Split(s, c) == [s]
  {
    IndexOfAbsent(s, c);
  }

  lemma HeadBeforeColon(head: string, value: string)
    requires ':' !in head
    ensures IndexOf(head + [':'] + value, ':') == |head|
    ensures (head + [':'] + value)[..|head|] == head && (head + [':'] + value)[|head| + 1..] == value
  {
    IndexOfSeparated(head, ':', value);
  }

  lemma NameOfHead(l: ContentLine)
    requires ValidContent(l)
    ensures PropertyName(GroupText(l) + l.name + ParameterText(l)) == Upper(l.name)
  {
    var named := GroupText(l) + l.name;
    if l.parameters.Some? {
      SplitSeparated(named, ';', l.parameters.value);
      assert named + ParameterText(l) == named + [';'] + l.parameters.value;
    } else {
      WholePiece(named, ';');
      assert named + ParameterText(l) == named;
    }
    if l.group.Some? {
      LastPieceBehind(l.group.value, '.', l.name);
    } else {
      assert named == l.name;
      WholePiece(l.name, '.');
    }
  }

  lemma LineIsProperty(parsed: ParsedVcard, l: ContentLine)
    requires ValidContent(l)
    ensures WithLine(parsed, LineText(l)) == WithProperty(parsed, PropertyOf(Upper(l.name)), l.value)
  {
    var head := GroupText(l) + l.name + ParameterText(l);
    HeadBeforeColon(head, l.value);
    NameOfHead(l);
  }

  predicate UpperWord(name: string) {
    forall i :: 0 <= i < |name| ==> 'A' <= name[i] <= 'Z'
  }

  lemma UpperSpells(s: string, name: string)
    requires UpperWord(name)
    ensures Upper(s) == name <==> Spells(s, name)
  {
    if |s| == |name| {
      forall i | 0 <= i < |s|
        ensures Upper(s)[i] == name[i] <==> s[i] == name[i] || s[i] as int == name[i] as int + 32
      {
      }
      assert Upper(s) == name <==> forall i :: 0 <= i < |s| ==> Upper(s)[i] == name[i];
    }
  }

  /** The names of the properties, by their spelling. */
  lemma PropertyBySpelling(s: string)
    ensures PropertyOf(Upper(s)) == Uid <==> Spells(s, "UID")
    ensures PropertyOf(Upper(s)) == Fn <==> Spells(s, "FN")
    ensures PropertyOf(Upper(s)) == N <==> Spells(s, "N")
    ensures PropertyOf(Upper(s)) == Email <==> Spells(s, "EMAIL")
    ensures PropertyOf(Upper(s)) == Tel <==> Spells(s, "TEL")
    ensures PropertyOf(Upper(s)) == Org <==> Spells(s, "ORG")
    ensures PropertyOf(Upper(s)) == Title <==> Spells(s, "TITLE")
    ensures PropertyOf(Upper(s)) == Note <==> Spells(s, "NOTE")
    ensures PropertyOf(Upper(s)) == Bday <==> Spells(s, "BDAY")
    ensures PropertyOf(Upper(s)) == Photo <==> Spells(s, "PHOTO")
  {
    UpperSpells(s, "UID");
    UpperSpells(s, "FN");
    UpperSpells(s, "N");
    UpperSpells(s, "EMAIL");
    UpperSpells(s, "TEL");
    UpperSpells(s, "ORG");
    UpperSpells(s, "TITLE");
    UpperSpells(s, "NOTE");
    UpperSpells(s, "BDAY");
    UpperSpells(s, "PHOTO");
    NamesByProperty(Upper(s));
  }

  lemma NamesByProperty(u: string)
    ensures PropertyOf(u) == Uid <==> u == "UID"
    ensures PropertyOf(u) == Fn <==> u == "FN"
    ensures PropertyOf(u) == N <==> u == "N"
    ensures PropertyOf(u) == Email <==> u == "EMAIL"
    ensures PropertyOf(u) == Tel <==> u == "TEL"
    ensures PropertyOf(u) == Org <==> u == "ORG"
    ensures PropertyOf(u) == Title <==> u == "TITLE"
    ensures PropertyOf(u) == Note <==> u == "NOTE"
    ensures PropertyOf(u) == Bday <==> u == "BDAY"
    ensures PropertyOf(u) == Photo <==> u == "PHOTO"
  {
    if u != [] {
      var c := u[0];
      assert "UID"[0] == 'U' && "FN"[0] == 'F' && "N"[0] == 'N' && "EMAIL"[0] == 'E' && "TEL"[0] == 'T';
      assert "ORG"[0] == 'O' && "TITLE"[0] == 'T' && "NOTE"[0] == 'N' && "BDAY"[0] == 'B' && "PHOTO"[0] == 'P';
    }
  }

  lemma SplitParts(raw: string)
    ensures var parts := Split(raw, ';');
      && parts[0] == UpToSemicolon(raw)
      && (|parts| > 1 <==> SecondPart(raw).Some?)
      && (|parts| > 1 ==> parts[1] == SecondPart(raw).value)
  {
    var i := IndexOf(raw, ';');
    assert raw[..|raw|] == raw;
    if i < |raw| {
      var rest := raw[i + 1..];
      assert rest[..|rest|] == rest;
      assert Split(raw, ';') == [raw[..i]] + Split(rest, ';');
    }
  }

  // ---- Whole cards

  lemma ValuesOneMore(front: seq<ContentLine>, l: ContentLine, name: string)
    ensures ValuesOf(front + [l], name) == ValuesOf(front, name) + if Spells(l.name, name) then [l.value] else []
  {
    assert Before(front + [l]) == front;
  }

  lemma OneMoreText(values: seq<string>, value: string)
    ensures LastText(values + [value]) == Some(Unescaped(value))
    ensures OrganizationOf(values + [value]) == Some(Split(Unescaped(value), ';')[0])
    ensures FamilyOf(values + [value]) == NonEmpty(Some(Unescaped(Split(value, ';')[0])))
    ensures GivenOf(values + [value]) ==
            if |Split(value, ';')| > 1 then NonEmpty(Some(Unescaped(Split(value, ';')[1]))) else None
  {
    SplitParts(value);
    SplitParts(Unescaped(value));
  }

  lemma OneMoreAddress(values: seq<string>, value: string, scheme: string)
    ensures AddressesOf(values + [value], scheme) ==
            AddressesOf(values, scheme) + [StripPrefix(Unescaped(value), scheme)]
  {
    assert Before(values + [value]) == values;
  }

  /** The cards differ at most in what this property sets. */
  predicate SameBut(a: ParsedVcard, b: ParsedVcard, property: Property) {
    && (property == Uid || a.uid == b.uid)
    && (property == Fn || a.fullName == b.fullName)
    && (property == N || (a.familyName == b.familyName && a.givenName == b.givenName))
    && (property == Email || a.emails == b.emails)
    && (property == Tel || a.phones == b.phones)
    && (property == Org || a.organization == b.organization)
    && (property == Title || a.title == b.title)
    && (property == Note || a.note == b.note)
    && (property == Bday || a.birthday == b.birthday)
    && (property == Photo || a.hasPhoto == b.hasPhoto)
  }

  lemma NotSpelled(front: seq<ContentLine>, l: ContentLine, name: string)
    requires !Spells(l.name, name)
    ensures ValuesOf(front + [l], name) == ValuesOf(front, name)
  {
    ValuesOneMore(front, l, name);
    assert ValuesOf(front, name) + [] == ValuesOf(front, name);
  }

  lemma OthersStay(front: seq<ContentLine>, l: ContentLine)
    ensures SameBut(CardOf(front + [l]), CardOf(front), PropertyOf(Upper(l.name)))
  {
    PropertyBySpelling(l.name);
    if !Spells(l.name, "UID") { NotSpelled(front, l, "UID"); }
    if !Spells(l.name, "FN") { NotSpelled(front, l, "FN"); }
    if !Spells(l.name, "N") { NotSpelled(front, l, "N"); }
    if !Spells(l.name, "EMAIL") { NotSpelled(front, l, "EMAIL"); }
    if !Spells(l.name, "TEL") { NotSpelled(front, l, "TEL"); }
    if !Spells(l.name, "ORG") { NotSpelled(front, l, "ORG"); }
    if !Spells(l.name, "TITLE") { NotSpelled(front, l, "TITLE"); }
    if !Spells(l.name, "NOTE") { NotSpelled(front, l, "NOTE"); }
    if !Spells(l.name, "BDAY") { NotSpelled(front, l, "BDAY"); }
    if !Spells(l.name, "PHOTO") { NotSpelled(front, l, "PHOTO"); }
  }

  /** What a line of each name sets. */
  lemma OwnSets(front: seq<ContentLine>, l: ContentLine)
    ensures var a, b := CardOf(front + [l]), WithProperty(CardOf(front), PropertyOf(Upper(l.name)), l.value);
      AgreeOn(a, b, PropertyOf(Upper(l.name)))
  {
    PropertyBySpelling(l.name);
    match PropertyOf(Upper(l.name))
    case Uid => OwnText(front, l, "UID");
    case Fn => OwnText(front, l, "FN");
    case N => OwnText(front, l, "N");
    case Email =>
      ValuesOneMore(front, l, "EMAIL");
      OneMoreAddress(ValuesOf(front, "EMAIL"), l.value, "mailto:");
    case Tel =>
      ValuesOneMore(front, l, "TEL");
      OneMoreAddress(ValuesOf(front, "TEL"), l.value, "tel:");
    case Org => OwnText(front, l, "ORG");
    case Title => OwnText(front, l, "TITLE");
    case Note => OwnText(front, l, "NOTE");
    case Bday => OwnText(front, l, "BDAY");
    case Photo => ValuesOneMore(front, l, "PHOTO");
    case Other =>
  }

  lemma OwnText(front: seq<ContentLine>, l: ContentLine, name: string)
    requires Spells(l.name, name)
    ensures var values := ValuesOf(front + [l], name);
      && LastText(values) == Some(Unescaped(l.value))
      && OrganizationOf(values) == Some(Split(Unescaped(l.value), ';')[0])
      && FamilyOf(values) == NonEmpty(Some(Unescaped(Split(l.value, ';')[0])))
      && GivenOf(values) ==
         if |Split(l.value, ';')| > 1 then NonEmpty(Some(Unescaped(Split(l.value, ';')[1]))) else None
  {
    ValuesOneMore(front, l, name);
    OneMoreText(ValuesOf(front, name), l.value);
  }

  lemma SetsOnlyItsOwn(card: ParsedVcard, property: Property, raw: string)
    ensures SameBut(WithProperty(card, property, raw), card, property)
  {
  }

  lemma TwoParts(a: ParsedVcard, b: ParsedVcard, property: Property)
    requires SameBut(a, b, property) && AgreeOn(a, b, property)
    ensures a == b
  {
  }

  lemma CardOneMore(front: seq<ContentLine>, l: ContentLine)
    ensures CardOf(front + [l]) == WithProperty(CardOf(front), PropertyOf(Upper(l.name)), l.value)
  {
    var property := PropertyOf(Upper(l.name));
    OthersStay(front, l);
    OwnSets(front, l);
    SetsOnlyItsOwn(CardOf(front), property, l.value);
    TwoParts(CardOf(front + [l]), WithProperty(CardOf(front), property, l.value), property);
  }

  function Texts(lines: seq<ContentLine>): seq<string> {
    seq(|lines|, i requires 0 <= i < |lines| => LineText(lines[i]))
  }

  predicate AllContent(lines: seq<ContentLine>) {
    forall i :: 0 <= i < |lines| ==> ValidContent(lines[i])
  }

  lemma ReadOne(lines: seq<ContentLine>)
    requires lines != [] && ValidContent(Latest(lines))
    ensures WithLine(CardOf(Before(lines)), LineText(Latest(lines))) == CardOf(lines)
  {
    var front, l := Before(lines), Latest(lines);
    assert lines == front + [l];
    LineIsProperty(CardOf(front), l);
    CardOneMore(front, l);
  }

  lemma TextsOneMore(lines: seq<ContentLine>)
    requires lines != []
    ensures Texts(lines) == Texts(Before(lines)) + [LineText(Latest(lines))]
  {
  }

  lemma {:induction false} LastLine(card: ParsedVcard, texts: seq<string>, text: string)
    ensures WithLines(card, texts + [text]) == WithLine(WithLines(card, texts), text)
    decreases |texts|
  {
    var all := texts + [text];
    if texts == [] {
      assert all[1..] == [];
    } else {
      assert all[1..] == texts[1..] + [text];
      LastLine(WithLine(card, texts[0]), texts[1..], text);
    }
  }

  lemma NothingRead()
    ensures CardOf([]) == EMPTY_CARD
  {
  }

  lemma {:induction false} ReadLines(lines: seq<ContentLine>)
    requires AllContent(lines)
    ensures WithLines(EMPTY_CARD, Texts(lines)) == CardOf(lines)
  {
    if lines == [] {
      NothingRead();
    } else {
      assert AllContent(Before(lines)) && ValidContent(Latest(lines));
      ReadLines(Before(lines));
      ReadOne(lines);
      LastLine(EMPTY_CARD, Texts(Before(lines)), LineText(Latest(lines)));
      TextsOneMore(lines);
    }
  }

  /** For every card, however its lines are folded: with groups, parameters and names in any letter case,
      the parser returns the reference reading of its lines. */
  lemma ParserReadsLines(lines: seq<ContentLine>, folded: seq<FoldedLine>)
    requires AllContent(lines) && AllFolded(folded)
    requires LogicalLines(folded) == Texts(lines)
    ensures Parsed(FoldedText(folded)) == CardOf(lines)
  {
    UnfoldInvertsAnyFold(folded);
    LastLine(EMPTY_CARD, Texts(lines), "");
    LineWithoutColon(CardOf(lines), "");
    ReadLines(lines);
  }

  /** A line without a colon says nothing. */
  lemma LineWithoutColon(card: ParsedVcard, line: string)
    requires ':' !in line
    ensures WithLine(card, line) == card
  {
    IndexOfAbsent(line, ':');
  }
}
