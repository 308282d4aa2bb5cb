/** The plain meaning of a multistatus document: every field is the text of its elements. It is what
    the reader returns for documents in which responses are not nested and fields hold no fields.
 */
module MultistatusFlat {
  import opened Text
  import opened Multistatus
  import opened MultistatusTree

  /** All text inside some content at any depth. */
  function TextsIn(content: Content): seq<string> {
    match content
    case Done => []
    case Piece(_, text, rest) => (if text.Some? then [text.value] else []) + TextsIn(rest)
    case Closed(_, rest) => TextsIn(rest)
    case Misc(rest) => TextsIn(rest)
    case Element(_, children, rest) => TextsIn(children) + TextsIn(rest)
  }

  predicate AllDecodable(content: Content) {
    match content
    case Done => true
    case Piece(_, text, rest) => text.Some? && AllDecodable(rest)
    case Closed(_, rest) => AllDecodable(rest)
    case Misc(rest) => AllDecodable(rest)
    case Element(_, children, rest) => AllDecodable(children) && AllDecodable(rest)
  }

  /** The texts of the elements that feed `field`. */
  function PlainTexts(field: Capture, content: Content, parent: string): seq<string> {
    match content
    case Done => []
    case Piece(_, _, rest) => PlainTexts(field, rest, parent)
    case Closed(_, rest) => PlainTexts(field, rest, parent)
    case Misc(rest) => PlainTexts(field, rest, parent)
    case Element(name, children, rest) =>
      (match CaptureOf(name, Some(parent))
       case None => PlainTexts(field, children, name)
       case Some(target) => if target == field then TextsIn(children) else [])
      + PlainTexts(field, rest, parent)
  }

  /** Are the elements that feed a field decodable? */
  predicate PlainlyDecodable(content: Content, parent: string) {
    match content
    case Done => true
    case Piece(_, _, rest) => PlainlyDecodable(rest, parent)
    case Closed(_, rest) => PlainlyDecodable(rest, parent)
    case Misc(rest) => PlainlyDecodable(rest, parent)
    case Element(name, children, rest) =>
      && (if CaptureOf(name, Some(parent)).Some? then AllDecodable(children) else PlainlyDecodable(children, name))
      && PlainlyDecodable(rest, parent)
  }

  function PlainField(field: Capture, content: Content): Option<string> {
    FieldOf(PlainTexts(field, content, "response"))
  }

  function PlainItem(content: Content): DavItem {
    DavItem(
      TrimField(PlainField(Href, content)),
      TrimField(PlainField(DisplayName, content)),
      TrimField(PlainField(Ctag, content)),
      TrimField(PlainField(Etag, content)),
      PlainField(AddressData, content),
      TrimField(PlainField(CurrentPrincipal, content)),
      TrimField(PlainField(AddressbookHome, content)),
      HoldsAddressbook(content))
  }

  /** One item for every `response` element, in document order; `None` when one cannot be read. */
  function Extract(content: Content): Option<seq<DavItem>> {
    match content
    case Done => Some([])
    case Piece(_, _, rest) => Extract(rest)
    case Closed(_, rest) => Extract(rest)
    case Misc(rest) => Extract(rest)
    case Element(name, children, rest) =>
      Together(
        if name != "response" then Extract(children)
        else if PlainlyDecodable(children, "response") then Some([PlainItem(children)])
        else None,
        Extract(rest))
  }

  // ---- Flat documents

  /** Inside a response: fields hold no fields. */
  predicate FlatFields(content: Content, parent: string) {
    match content
    case Done => true
    case Piece(_, _, rest) => FlatFields(rest, parent)
    case Closed(_, rest) => FlatFields(rest, parent)
    case Misc(rest) => FlatFields(rest, parent)
    case Element(name, children, rest) =>
      && (if CaptureOf(name, Some(parent)).Some? then !HoldsField(children) else FlatFields(children, name))
      && FlatFields(rest, parent)
  }

  predicate FlatDocument(content: Content) {
    match content
    case Done => true
    case Piece(_, _, rest) => FlatDocument(rest)
    case Closed(_, rest) => FlatDocument(rest)
    case Misc(rest) => FlatDocument(rest)
    case Element(name, children, rest) =>
      && (if name == "response" then FlatFields(children, "response") && !HoldsResponse(children)
          else FlatDocument(children))
      && FlatDocument(rest)
  }

  /** Inside a field that holds no field, all text feeds that field. */
  lemma {:induction false} FieldText(field: Capture, content: Content, parent: string, mode: Capture)
    requires !HoldsField(content)
    ensures TextsFor(field, content, parent, Some(mode)) == if field == mode then TextsIn(content) else []
    ensures Decodable(content, parent, Some(mode)) == AllDecodable(content)
  {
    match content
    case Done =>
    case Piece(_, _, rest) => FieldText(field, rest, parent, mode);
    case Closed(_, rest) => FieldText(field, rest, parent, mode);
    case Misc(rest) => FieldText(field, rest, parent, mode);
    case Element(name, children, rest) =>
      FieldText(field, children, name, mode);
      FieldText(field, rest, parent, mode);
  }

  lemma {:induction false} FlatTexts(field: Capture, content: Content, parent: string)
    requires FlatFields(content, parent)
    ensures TextsFor(field, content, parent, None) == PlainTexts(field, content, parent)
    ensures Decodable(content, parent, None) == PlainlyDecodable(content, parent)
  {
    match content
    case Done =>
    case Piece(_, _, rest) => FlatTexts(field, rest, parent);
    case Closed(_, rest) => FlatTexts(field, rest, parent);
    case Misc(rest) => FlatTexts(field, rest, parent);
    case Element(name, children, rest) =>
      FlatTexts(field, rest, parent);
      match CaptureOf(name, Some(parent)) {
        case Some(target) => FieldText(field, children, name, target);
        case None => FlatTexts(field, children, name);
      }
  }

  lemma FlatItem(content: Content)
    requires FlatFields(content, "response")
    ensures ItemOf(content, None) == PlainItem(content)
    ensures Decodable(content, "response", None) == PlainlyDecodable(content, "response")
  {
    forall field ensures Field(field, content, None) == PlainField(field, content) {
      FlatTexts(field, content, "response");
    }
    FlatTexts(Href, content, "response");
  }

  lemma {:induction false} FlatItems(content: Content)
    requires FlatDocument(content)
    ensures ItemsIn(content, None) == Extract(content)
  {
    match content
    case Done =>
    case Piece(_, _, rest) => FlatItems(rest);
    case Closed(_, rest) => FlatItems(rest);
    case Misc(rest) => FlatItems(rest);
    case Element(name, children, rest) =>
      FlatItems(rest);
      if name == "response" {
        FlatItem(children);
      } else {
        FlatItems(children);
      }
  }

  /** On flat documents the reader returns one item per response in document order, each field being
      the text of its elements, and fails exactly when such a text cannot be decoded. */
  lemma FlatDocumentsReadPlainly(document: Content)
    requires FlatDocument(document)
    ensures ReadItems(Events(document)) ==
            if Extract(document).Some? then Ok(Extract(document).value) else Err(XmlError)
  {
    ReaderExtractsTree(document);
    FlatItems(document);
  }

  // ---- Why flatness is needed

  /** The content of a field that holds another, empty field between two texts. */
  function SplitField(before: string, after: string): Content {
    Piece(AsText, Some(before), Element("href", Done, Piece(AsText, Some(after), Done)))
  }

  lemma SplitFieldTexts(before: string, after: string)
    ensures TextsFor(DisplayName, SplitField(before, after), "displayname", Some(DisplayName)) == [before]
    ensures TextsIn(SplitField(before, after)) == [before, after]
  {
    var text := Piece(AsText, Some(after), Done);
    var nested := Element("href", Done, text);
    assert TextsFor(DisplayName, text, "displayname", None) == [];
    assert TextsFor(DisplayName, nested, "displayname", Some(DisplayName)) == [];
    assert TextsIn(text) == [after] && TextsIn(nested) == [after];
  }

  lemma SplitFieldReads(before: string, after: string)
    ensures Decodable(SplitField(before, after), "displayname", Some(DisplayName))
    ensures !HoldsResponse(SplitField(before, after))
  {
    assert "href"[0] != "response"[0];
    var text := Piece(AsText, Some(after), Done);
    assert Decodable(text, "displayname", None) && !HoldsResponse(text);
    var nested := Element("href", Done, text);
    assert Decodable(nested, "displayname", Some(DisplayName)) && !HoldsResponse(nested);
  }

  lemma TwoTexts(before: string, after: string)
    ensures FieldOf([before]) == Some(before) && FieldOf([before, after]) == Some(before + after)
  {
    assert [before][1..] == [] && [before, after][1..] == [after] && [after][1..] == [];
    assert Concat([after]) == after + [] == after;
    assert Concat([before]) == before + [] == before;
  }

  /** Text behind a field nested in another field is lost: the inner end tag stops the capture. */
  lemma NestedFieldLosesText(before: string, after: string)
    ensures var content := Element("displayname", SplitField(before, after), Done);
      && Decodable(content, "response", None) && !HoldsResponse(content)
      && Field(DisplayName, content, None) == Some(before)
      && PlainField(DisplayName, content) == Some(before + after)
  {
    var inside := SplitField(before, after);
    SplitFieldTexts(before, after);
    SplitFieldReads(before, after);
    TwoTexts(before, after);
    NamedField(inside);
  }

  lemma NamedField(inside: Content)
    ensures var content := Element("displayname", inside, Done);
      && TextsFor(DisplayName, content, "response", None) ==
         TextsFor(DisplayName, inside, "displayname", Some(DisplayName))
      && PlainTexts(DisplayName, content, "response") == TextsIn(inside)
      && Decodable(content, "response", None) == Decodable(inside, "displayname", Some(DisplayName))
      && HoldsResponse(content) == HoldsResponse(inside)
  {
    var content := Element("displayname", inside, Done);
    assert "displayname"[0] != "response"[0];
    assert CaptureOf("displayname", Some("response")) == Some(DisplayName);
    assert TextsFor(DisplayName, Done, "response", Behind(None, "displayname", inside)) == [];
    assert PlainTexts(DisplayName, Done, "response") == [];
    assert TextsIn(inside) + [] == TextsIn(inside);
  }

  /** The responses that hold no response. */
  function InnermostResponses(content: Content): nat {
    match content
    case Done => 0
    case Piece(_, _, rest) => InnermostResponses(rest)
    case Closed(_, rest) => InnermostResponses(rest)
    case Misc(rest) => InnermostResponses(rest)
    case Element(name, children, rest) =>
      (if name == "response" && !HoldsResponse(children) then 1 else InnermostResponses(children))
      + InnermostResponses(rest)
  }

  lemma {:induction false} NoInnermost(content: Content)
    requires !HoldsResponse(content)
    ensures InnermostResponses(content) == 0
  {
    match content
    case Done =>
    case Piece(_, _, rest) => NoInnermost(rest);
    case Closed(_, rest) => NoInnermost(rest);
    case Misc(rest) => NoInnermost(rest);
    case Element(name, children, rest) => NoInnermost(children); NoInnermost(rest);
  }

  /** In every tree, exactly the responses that hold no response become items: a nested response
      takes the place of the one around it. */
  lemma {:induction false} ItemsAreInnermostResponses(content: Content, mode: Option<Capture>)
    ensures ItemsIn(content, mode).Some? ==> |ItemsIn(content, mode).value| == InnermostResponses(content)
    decreases content, 0
  {
    match content
    case Done =>
    case Piece(_, _, rest) => ItemsAreInnermostResponses(rest, mode);
    case Closed(_, rest) => ItemsAreInnermostResponses(rest, mode);
    case Misc(rest) => ItemsAreInnermostResponses(rest, mode);
    case Element(name, children, rest) =>
      ItemsAreInnermostResponses(children, mode);
      ItemsAreInnermostResponses(rest, Behind(mode, name, children));
      InterruptedInnermost(children, "response", mode);
  }

  lemma {:induction false} InterruptedInnermost(content: Content, parent: string, mode: Option<Capture>)
    ensures Interrupted(content, parent, mode).Some? ==>
      |Interrupted(content, parent, mode).value| == InnermostResponses(content)
    decreases content, 0
  {
    match content
    case Done =>
    case Piece(_, _, rest) => InterruptedInnermost(rest, parent, mode);
    case Closed(_, rest) => InterruptedInnermost(rest, parent, mode);
    case Misc(rest) => InterruptedInnermost(rest, parent, mode);
    case Element(name, children, rest) =>
      var inner, behind := Inside(mode, name, parent), Behind(mode, name, children);
      InterruptedInnermost(children, name, inner);
      InterruptedInnermost(children, "response", mode);
      InterruptedInnermost(rest, parent, behind);
      ItemsAreInnermostResponses(rest, behind);
      if !HoldsResponse(children) {
        NoInnermost(children);
      }
  }
}
