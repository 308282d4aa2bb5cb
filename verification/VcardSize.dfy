/** How large a card can get: a size of the contact below which the printer accepts it. */
module VcardSize {
  import opened Text
  import opened VcardEscape
  import opened VcardFold
  import opened Vcard
  import opened VcardRoundTrip

  lemma {:induction false} EscapedSize(s: string)
    ensures ByteLen(EscapeOnce(s)) <= 2 * ByteLen(s)
  {
    if s != [] {
      EscapedSize(s[1..]);
      ByteLenConcat(EscapeChar(s[0]), EscapeOnce(s[1..]));
      EscapedCharSize(s[0]);
    }
  }

  lemma EscapedCharSize(c: char)
    ensures ByteLen(EscapeChar(c)) <= 2 * Utf8Width(c)
  {
    var e := EscapeChar(c);
    if |e| == 2 {
      assert ByteLen(e) == Utf8Width(e[0]) + ByteLen(e[1..]);
      assert ByteLen(e[1..]) == Utf8Width(e[1]) + ByteLen(e[1..][1..]);
    } else if |e| == 1 {
      assert ByteLen(e) == Utf8Width(e[0]) + ByteLen(e[1..]);
    }
  }

  predicate IsAscii(s: string) {
    forall i :: 0 <= i < |s| ==> s[i] as int < 0x80
  }

  lemma {:induction false} AsciiSize(s: string)
    requires IsAscii(s)
    ensures ByteLen(s) == |s|
  {
    if s != [] {
      AsciiSize(s[1..]);
    }
  }

  /** A bound on the bytes that a line takes in the card, folded and ended by CRLF. */
  function Cost(line: string): nat {
    2 * ByteLen(line) + 5
  }

  function Costs(lines: seq<string>): nat {
    if lines == [] then 0 else Cost(lines[0]) + Costs(lines[1..])
  }

  lemma LineFits(line: string)
    ensures ByteLen(Folded(line) + CRLF) <= Cost(line)
  {
    ByteLenConcat(Folded(line), CRLF);
    AsciiSize(CRLF);
    if ByteLen(line) > 75 {
      FoldingGrowth(line);
    }
  }

  lemma {:induction false} LinesFit(lines: seq<string>)
    ensures ByteLen(FoldAll(lines)) <= Costs(lines)
  {
    if lines != [] {
      LinesFit(lines[1..]);
      LineFits(lines[0]);
      ByteLenConcat(Folded(lines[0]) + CRLF, FoldAll(lines[1..]));
    }
  }

  lemma {:induction false} CostsConcat(a: seq<string>, b: seq<string>)
    ensures Costs(a + b) == Costs(a) + Costs(b)
  {
    if a == [] {
      assert a + b == b;
    } else {
      assert (a + b)[1..] == a[1..] + b;
      CostsConcat(a[1..], b);
    }
  }

  lemma OneCost(line: string)
    ensures Costs([line]) == Cost(line)
  {
    assert [line][1..] == [];
  }

  lemma TaggedCost(tag: string, value: string)
    requires IsAscii(tag)
    ensures Cost(tag + EscapeText(value)) <= 2 * |tag| + 5 + 4 * ByteLen(value)
  {
    ByteLenConcat(tag, EscapeText(value));
    AsciiSize(tag);
    EscapeIsOnePass(value);
    EscapedSize(value);
  }

  function Sizes(values: seq<string>): nat {
    if values == [] then 0 else ByteLen(values[0]) + Sizes(values[1..])
  }

  lemma {:induction false} LabelledCost(tag: string, values: seq<string>)
    requires IsAscii(tag) && |tag| <= 6
    ensures Costs(Labelled(tag, values)) <= 17 * |values| + 4 * Sizes(values)
  {
    if values != [] {
      LabelledCost(tag, values[1..]);
      TaggedCost(tag, values[0]);
      assert Labelled(tag, values)[1..] == Labelled(tag, values[1..]);
    }
  }

  lemma OptionalCost(tag: string, value: Option<string>)
    requires IsAscii(tag) && |tag| <= 6
    ensures Costs(OptionalLine(tag, value)) <= 17 + 4 * ByteLen(OrEmpty(value))
  {
    if NonEmpty(value).Some? {
      TaggedCost(tag, value.value);
      OneCost(tag + EscapeText(value.value));
    }
  }

  lemma NameCost(contact: ContactInput, tag: string)
    requires tag == "N:"
    ensures Cost(tag + NameValue(contact)) <=
            17 + 4 * ByteLen(OrEmpty(contact.familyName)) + 4 * ByteLen(OrEmpty(contact.givenName))
  {
    var family, given := OrEmpty(contact.familyName), OrEmpty(contact.givenName);
    var e, f := EscapeText(family), EscapeText(given);
    EscapeIsOnePass(family);
    EscapeIsOnePass(given);
    EscapedSize(family);
    EscapedSize(given);
    ByteLenConcat(tag, NameValue(contact));
    ByteLenConcat(e + ";" + f, ";;;");
    ByteLenConcat(e + ";", f);
    ByteLenConcat(e, ";");
    AsciiSize(tag);
    AsciiSize(";");
    AsciiSize(";;;");
  }

  lemma BeginCost(line: string)
    requires line == "BEGIN:VCARD"
    ensures Cost(line) <= 27
  {
    AsciiSize(line);
  }

  lemma VersionCost(line: string)
    requires line == "VERSION:4.0"
    ensures Cost(line) <= 27
  {
    AsciiSize(line);
  }

  lemma EndCost(line: string)
    requires line == "END:VCARD"
    ensures Costs([line]) <= 23
  {
    AsciiSize(line);
    OneCost(line);
  }

  lemma UidCost(tag: string, uid: string)
    requires tag == "UID:"
    ensures Cost(tag + EscapeText(uid)) <= 13 + 4 * ByteLen(uid)
  {
    TaggedCost(tag, uid);
  }

  lemma FullNameCost(tag: string, fullName: string)
    requires tag == "FN:"
    ensures Cost(tag + EscapeText(fullName)) <= 11 + 4 * ByteLen(fullName)
  {
    TaggedCost(tag, fullName);
  }

  lemma HeaderCost(contact: ContactInput, uid: string)
    ensures Costs(Header(contact, uid)) <=
            95 + 4 * (ByteLen(uid) + ByteLen(contact.fullName)
                      + ByteLen(OrEmpty(contact.familyName)) + ByteLen(OrEmpty(contact.givenName)))
  {
    var lines := Header(contact, uid);
    FiveCosts(lines);
    BeginCost(lines[0]);
    VersionCost(lines[1]);
    UidCost("UID:", uid);
    FullNameCost("FN:", contact.fullName);
    NameCost(contact, "N:");
  }

  lemma FiveCosts(lines: seq<string>)
    requires |lines| == 5
    ensures Costs(lines) == Cost(lines[0]) + Cost(lines[1]) + Cost(lines[2]) + Cost(lines[3]) + Cost(lines[4])
  {
    assert lines == lines[..1] + lines[1..] && lines[1..] == [lines[1]] + lines[2..];
    assert lines[1..][1..] == lines[2..] && lines[2..][1..] == lines[3..] && lines[3..][1..] == lines[4..];
    OneCost(lines[4]);
    assert lines[4..] == [lines[4]];
    assert Costs(lines[3..]) == Cost(lines[3]) + Costs(lines[4..]);
    assert Costs(lines[2..]) == Cost(lines[2]) + Costs(lines[3..]);
    assert Costs(lines[1..]) == Cost(lines[1]) + Costs(lines[2..]);
  }

  /** The bytes of all text that goes into the card. */
  function TextSize(contact: ContactInput, uid: string): nat {
    ByteLen(uid) + ByteLen(contact.fullName)
    + ByteLen(OrEmpty(contact.familyName)) + ByteLen(OrEmpty(contact.givenName))
    + Sizes(contact.emails) + Sizes(contact.phones)
    + ByteLen(OrEmpty(contact.organization)) + ByteLen(OrEmpty(contact.title)) + ByteLen(OrEmpty(contact.note))
  }

  lemma CardCost(contact: ContactInput, uid: string)
    ensures Costs(CardLines(contact, uid)) <=
            4 * TextSize(contact, uid) + 17 * (|contact.emails| + |contact.phones|) + 169
  {
    HeaderCost(contact, uid);
    AddressesCost(contact);
    DetailsCost(contact);
    var end := "END:VCARD";
    EndCost(end);
    FourCosts(Header(contact, uid), AddressLines(contact), DetailLines(contact), [end]);
  }

  lemma FourCosts(a: seq<string>, b: seq<string>, c: seq<string>, d: seq<string>)
    ensures Costs(a + b + c + d) == Costs(a) + Costs(b) + Costs(c) + Costs(d)
  {
    CostsConcat(a + b + c, d);
    CostsConcat(a + b, c);
    CostsConcat(a, b);
  }

  lemma AddressesCost(contact: ContactInput)
    ensures Costs(AddressLines(contact)) <=
            17 * (|contact.emails| + |contact.phones|) + 4 * (Sizes(contact.emails) + Sizes(contact.phones))
  {
    LabelledCost("EMAIL:", contact.emails);
    LabelledCost("TEL:", contact.phones);
    CostsConcat(Labelled("EMAIL:", contact.emails), Labelled("TEL:", contact.phones));
  }

  lemma DetailsCost(contact: ContactInput)
    ensures Costs(DetailLines(contact)) <=
            51 + 4 * (ByteLen(OrEmpty(contact.organization))
                      + ByteLen(OrEmpty(contact.title)) + ByteLen(OrEmpty(contact.note)))
  {
    var org, title := OptionalLine("ORG:", contact.organization), OptionalLine("TITLE:", contact.title);
    var note := OptionalLine("NOTE:", contact.note);
    OptionalCost("ORG:", contact.organization);
    OptionalCost("TITLE:", contact.title);
    OptionalCost("NOTE:", contact.note);
    CostsConcat(org + title, note);
    CostsConcat(org, title);
  }

  /** Every contact with a valid UID and no more than about 64 KiB of text is accepted, whatever its text. */
  lemma SmallContactsAreAccepted(contact: ContactInput, uid: string)
    requires ValidUid(uid)
    requires 4 * TextSize(contact, uid) + 17 * (|contact.emails| + |contact.phones|) + 169 <= MAX_VCARD_BYTES
    ensures Built(contact, uid).Ok?
  {
    LinesFit(CardLines(contact, uid));
    CardCost(contact, uid);
  }

  /** So such a contact is printed and parsed back to its recoverable card. */
  lemma SmallContactsRoundTrip(contact: ContactInput, uid: string)
    requires ValidUid(uid)
    requires 4 * TextSize(contact, uid) + 17 * (|contact.emails| + |contact.phones|) + 169 <= MAX_VCARD_BYTES
    ensures Built(contact, uid).Ok? && Parsed(Built(contact, uid).value) == Recoverable(contact, uid)
  {
    SmallContactsAreAccepted(contact, uid);
    ParseInvertsBuild(contact, uid);
  }
}
