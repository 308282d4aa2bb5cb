/** What the printer writes, line by line, and what it refuses. */
module VcardPrinting {
  import opened Text
  import opened VcardEscape
  import opened VcardFold
  import opened Vcard
  import opened VcardRoundTrip

  function Tagged(tag: string, values: seq<string>): (lines: seq<string>)
    ensures |lines| == |values|
  {
    seq(|values|, i requires 0 <= i < |values| => tag + EscapeText(values[i]))
  }

  function Field(tag: string, value: Option<string>): seq<string> {
    if value.Some? && value.value != "" then [tag + EscapeText(value.value)] else []
  }

  function TextOr(value: Option<string>): string {
    if value.Some? then value.value else ""
  }

  lemma {:induction false} LabelledIsTagged(tag: string, values: seq<string>)
    ensures Labelled(tag, values) == Tagged(tag, values)
  {
    if values != [] {
      LabelledIsTagged(tag, values[1..]);
      assert Tagged(tag, values) == [tag + EscapeText(values[0])] + Tagged(tag, values[1..]);
    }
  }

  lemma FieldIsOptional(tag: string, value: Option<string>)
    ensures OptionalLine(tag, value) == Field(tag, value)
  {
  }

  lemma HeaderIs(contact: ContactInput, uid: string)
    ensures Header(contact, uid) ==
            ["BEGIN:VCARD", "VERSION:4.0", "UID:" + EscapeText(uid), "FN:" + EscapeText(contact.fullName),
             "N:" + (EscapeText(TextOr(contact.familyName)) + ";" + EscapeText(TextOr(contact.givenName)) + ";;;")]
  {
  }

  lemma AddressesAre(contact: ContactInput)
    ensures AddressLines(contact) == Tagged("EMAIL:", contact.emails) + Tagged("TEL:", contact.phones)
  {
    LabelledIsTagged("EMAIL:", contact.emails);
    LabelledIsTagged("TEL:", contact.phones);
  }

  lemma DetailsAre(contact: ContactInput)
    ensures DetailLines(contact) ==
            Field("ORG:", contact.organization) + Field("TITLE:", contact.title) + Field("NOTE:", contact.note)
  {
  }

  lemma CardIs(contact: ContactInput, uid: string, last: string)
    requires last == "END:VCARD"
    ensures CardLines(contact, uid) == Header(contact, uid) + AddressLines(contact) + DetailLines(contact) + [last]
  {
  }

  /** An accepted card says exactly these lines in this order. */
  lemma PrintedCard(contact: ContactInput, uid: string)
    ensures Built(contact, uid).Ok? ==>
      Unfolded(Built(contact, uid).value) ==
      ["BEGIN:VCARD", "VERSION:4.0", "UID:" + EscapeText(uid), "FN:" + EscapeText(contact.fullName),
       "N:" + (EscapeText(TextOr(contact.familyName)) + ";" + EscapeText(TextOr(contact.givenName)) + ";;;")]
      + (Tagged("EMAIL:", contact.emails) + Tagged("TEL:", contact.phones))
      + (Field("ORG:", contact.organization) + Field("TITLE:", contact.title) + Field("NOTE:", contact.note))
      + ["END:VCARD"] + [""]
  {
    HeaderIs(contact, uid);
    AddressesAre(contact);
    DetailsAre(contact);
    CardIs(contact, uid, "END:VCARD");
    PrintedIsCardLines(contact, uid);
  }

  lemma PrintedIsCardLines(contact: ContactInput, uid: string)
    ensures Built(contact, uid).Ok? ==> Unfolded(Built(contact, uid).value) == CardLines(contact, uid) + [""]
  {
    CardLinesFoldable(contact, uid);
    UnfoldInvertsFold(CardLines(contact, uid));
  }

  /** It is a sequence of physical lines of at most 75 octets, each ended by CRLF. */
  lemma PrintedLinesFit(contact: ContactInput, uid: string)
    ensures Built(contact, uid).Ok? ==>
      exists raws :: Built(contact, uid).value == Terminate(raws, "\r\n") &&
                     forall raw | raw in raws :: HasNoBreaks(raw) && ByteLen(raw) <= 75
  {
    CardLinesFoldable(contact, uid);
    FoldAllIsTerminated(CardLines(contact, uid));
  }

  /** A UID that is blank, longer than 512 bytes or holds a control character is refused, and otherwise
      exactly a card of more than 262144 bytes is. */
  lemma RefusedIff(contact: ContactInput, uid: string)
    ensures Built(contact, uid) == Err(InvalidUid) <==>
            || (forall c | c in uid :: IsWhitespace(c))
            || ByteLen(uid) > 512
            || exists c :: c in uid && (c as int < 0x20 || 0x7F <= c as int <= 0x9F)
    ensures Built(contact, uid) == Err(VcardTooLarge) <==>
            Built(contact, uid) != Err(InvalidUid) && ByteLen(FoldAll(CardLines(contact, uid))) > 262144
  {
    BlankIff(uid);
    if !(forall c | c in uid :: !IsControl(c)) {
      var c :| c in uid && IsControl(c);
      assert c as int < 0x20 || 0x7F <= c as int <= 0x9F;
    }
  }

  /** A text is trimmed to nothing exactly when it is all white space. */
  lemma BlankIff(s: string)
    ensures Trim(s) == "" <==> forall c | c in s :: IsWhitespace(c)
  {
    if AllWhitespace(s) {
      TrimBlank(s);
    } else {
      VisibleStays(s);
    }
  }

  lemma {:induction false} VisibleStays(s: string)
    requires !AllWhitespace(s)
    ensures Trim(s) != ""
  {
    if IsWhitespace(s[0]) {
      assert s == [s[0]] + s[1..];
      VisibleStays(s[1..]);
    } else {
      VisibleEndStays(s);
    }
  }

  lemma {:induction false} VisibleEndStays(s: string)
    requires s != [] && !IsWhitespace(s[0])
    ensures TrimEnd(s) != ""
  {
    if IsWhitespace(s[|s| - 1]) {
      VisibleEndStays(s[..|s| - 1]);
    }
  }
}
