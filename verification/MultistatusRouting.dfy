/** Which element sets which field of an item, by the names that WebDAV and CardDAV give them, and what
    ends a document early.
 */
module MultistatusRouting {
  import opened Text
  import opened Multistatus
  import opened MultistatusTree
  import opened MultistatusFlat

  /** The names that mean something to the reader. */
  const KNOWN := {"response", "href", "displayname", "getctag", "getetag", "address-data", "addressbook"}

  predicate Unknown(path: seq<string>) {
    forall i :: 0 <= i < |path| ==> path[i] !in KNOWN
  }

  /** An element wrapped into others, the first of them outermost. */
  function Wrapped(path: seq<string>, inner: Content): Content {
    if path == [] then inner else Element(path[0], Wrapped(path[1..], inner), Done)
  }

  /** The name of the element around the wrapped one. */
  function ParentIn(path: seq<string>): string {
    if path == [] then "response" else path[|path| - 1]
  }

  function TextElement(name: string, kind: PieceKind, text: string): Content {
    Element(name, Piece(kind, Some(text), Done), Done)
  }

  /** One response that holds nothing but this content. */
  function OneResponse(content: Content): Content {
    Element("response", content, Done)
  }

  // ---- Any one element

  lemma {:induction false} WrappedTexts(field: Capture, path: seq<string>, parent: string, inner: Content)
    requires Unknown(path)
    ensures PlainTexts(field, Wrapped(path, inner), parent) ==
            PlainTexts(field, inner, if path == [] then parent else path[|path| - 1])
    ensures PlainlyDecodable(Wrapped(path, inner), parent) ==
            PlainlyDecodable(inner, if path == [] then parent else path[|path| - 1])
    ensures FlatFields(Wrapped(path, inner), parent) ==
            FlatFields(inner, if path == [] then parent else path[|path| - 1])
    decreases |path|
  {
    if path != [] {
      assert path[0] !in KNOWN && CaptureOf(path[0], Some(parent)) == None;
      WrappedTexts(field, path[1..], path[0], inner);
      var texts := PlainTexts(field, Wrapped(path[1..], inner), path[0]);
      assert texts + [] == texts;
    }
  }

  lemma {:induction false} WrappedHolds(path: seq<string>, inner: Content)
    requires Unknown(path)
    ensures HoldsResponse(Wrapped(path, inner)) == HoldsResponse(inner)
    ensures HoldsAddressbook(Wrapped(path, inner)) == HoldsAddressbook(inner)
    decreases |path|
  {
    if path != [] {
      assert path[0] !in KNOWN;
      WrappedHolds(path[1..], inner);
    }
  }

  /** The item in which one field, if any, has one text. */
  function ItemWith(target: Option<Capture>, text: string): DavItem {
    match target
    case None => EMPTY_ITEM
    case Some(Href) => EMPTY_ITEM.(href := Some(Trim(text)))
    case Some(CurrentPrincipal) => EMPTY_ITEM.(currentUserPrincipal := Some(Trim(text)))
    case Some(AddressbookHome) => EMPTY_ITEM.(addressbookHome := Some(Trim(text)))
    case Some(DisplayName) => EMPTY_ITEM.(displayName := Some(Trim(text)))
    case Some(Ctag) => EMPTY_ITEM.(ctag := Some(Trim(text)))
    case Some(Etag) => EMPTY_ITEM.(etag := Some(Trim(text)))
    case Some(AddressData) => EMPTY_ITEM.(addressData := Some(text))
  }

  lemma TextOfElement(field: Capture, name: string, kind: PieceKind, text: string, parent: string)
    ensures PlainTexts(field, TextElement(name, kind, text), parent) ==
            if CaptureOf(name, Some(parent)) == Some(field) then [text] else []
    ensures PlainlyDecodable(TextElement(name, kind, text), parent)
    ensures FlatFields(TextElement(name, kind, text), parent)
  {
    var piece := Piece(kind, Some(text), Done);
    assert TextsIn(piece) == [text] && PlainTexts(field, piece, name) == [];
    assert TextsIn(piece) + [] == TextsIn(piece);
  }

  lemma FieldOfOne(text: string)
    ensures FieldOf([text]) == Some(text)
  {
    assert [text][1..] == [];
    assert Concat([text]) == text + [] == text;
  }

  /** Does this content feed one field, if any, with one text, and no other? */
  ghost predicate Feeds(content: Content, target: Option<Capture>, text: string) {
    forall field :: PlainField(field, content) == if target == Some(field) then Some(text) else None
  }

  /** The field has the text if it is the target, and is absent otherwise. */
  predicate Set(field: Option<string>, name: Capture, target: Option<Capture>, text: string) {
    field == if target == Some(name) then Some(text) else None
  }

  lemma ItemFromFields(item: DavItem, target: Option<Capture>, text: string,
                       href: Option<string>, displayName: Option<string>, ctag: Option<string>, etag: Option<string>,
                       addressData: Option<string>, principal: Option<string>, home: Option<string>)
    requires item == DavItem(TrimField(href), TrimField(displayName), TrimField(ctag), TrimField(etag), addressData,
                             TrimField(principal), TrimField(home), false)
    requires Set(href, Href, target, text) && Set(displayName, DisplayName, target, text)
    requires Set(ctag, Ctag, target, text) && Set(etag, Etag, target, text)
    requires Set(addressData, AddressData, target, text)
    requires Set(principal, CurrentPrincipal, target, text) && Set(home, AddressbookHome, target, text)
    ensures item == ItemWith(target, text)
  {
  }

  lemma FedField(content: Content, target: Option<Capture>, text: string, field: Capture)
    requires Feeds(content, target, text)
    ensures Set(PlainField(field, content), field, target, text)
  {
  }

  lemma PlainItemWith(content: Content, target: Option<Capture>, text: string)
    requires Feeds(content, target, text) && !HoldsAddressbook(content)
    ensures PlainItem(content) == ItemWith(target, text)
  {
    FedField(content, target, text, Href);
    FedField(content, target, text, DisplayName);
    FedField(content, target, text, Ctag);
    FedField(content, target, text, Etag);
    FedField(content, target, text, AddressData);
    FedField(content, target, text, CurrentPrincipal);
    FedField(content, target, text, AddressbookHome);
    ItemFromFields(PlainItem(content), target, text, PlainField(Href, content), PlainField(DisplayName, content),
                   PlainField(Ctag, content), PlainField(Etag, content), PlainField(AddressData, content),
                   PlainField(CurrentPrincipal, content), PlainField(AddressbookHome, content));
  }

  lemma WrappedElementFeeds(path: seq<string>, name: string, kind: PieceKind, text: string)
    requires Unknown(path)
    ensures Feeds(Wrapped(path, TextElement(name, kind, text)), CaptureOf(name, Some(ParentIn(path))), text)
  {
    var inner := TextElement(name, kind, text);
    forall field
      ensures PlainField(field, Wrapped(path, inner)) ==
              if CaptureOf(name, Some(ParentIn(path))) == Some(field) then Some(text) else None
    {
      WrappedTexts(field, path, "response", inner);
      TextOfElement(field, name, kind, text, ParentIn(path));
      FieldOfOne(text);
    }
  }

  lemma WrappedElementIsFlat(path: seq<string>, name: string, kind: PieceKind, text: string)
    requires Unknown(path) && name != "response" && name != "addressbook"
    ensures var content := Wrapped(path, TextElement(name, kind, text));
      && FlatFields(content, "response") && PlainlyDecodable(content, "response")
      && !HoldsResponse(content) && !HoldsAddressbook(content)
  {
    var inner := TextElement(name, kind, text);
    WrappedTexts(Href, path, "response", inner);
    TextOfElement(Href, name, kind, text, ParentIn(path));
    WrappedHolds(path, inner);
    assert !HoldsAddressbook(inner) && !HoldsResponse(inner) by {
      assert !HoldsAddressbook(inner.children) && !HoldsResponse(inner.children);
    }
  }

  lemma ReadsOneElement(path: seq<string>, name: string, kind: PieceKind, text: string)
    requires Unknown(path) && name != "response" && name != "addressbook"
    ensures ReadItems(Events(OneResponse(Wrapped(path, TextElement(name, kind, text))))) ==
            Ok([ItemWith(CaptureOf(name, Some(ParentIn(path))), text)])
  {
    var content, target := Wrapped(path, TextElement(name, kind, text)), CaptureOf(name, Some(ParentIn(path)));
    WrappedElementFeeds(path, name, kind, text);
    WrappedElementIsFlat(path, name, kind, text);
    PlainItemWith(content, target, text);
    ItemOfResponse(content, ItemWith(target, text));
  }

  /** A response without responses or nested fields inside reads as its plain item. */
  lemma ItemOfResponse(content: Content, item: DavItem)
    requires FlatFields(content, "response") && !HoldsResponse(content) && PlainlyDecodable(content, "response")
    requires PlainItem(content) == item
    ensures ReadItems(Events(OneResponse(content))) == Ok([item])
  {
    var document := OneResponse(content);
    assert FlatDocument(document);
    FlatDocumentsReadPlainly(document);
    assert Extract(Done) == Some([]) && [PlainItem(content)] + [] == [PlainItem(content)];
  }

  // ---- Each element by its name

  lemma DisplayNameIsRead(path: seq<string>, kind: PieceKind, text: string)
    requires Unknown(path)
    ensures ReadItems(Events(OneResponse(Wrapped(path, TextElement("displayname", kind, text))))) ==
            Ok([EMPTY_ITEM.(displayName := Some(Trim(text)))])
  {
    ReadsOneElement(path, "displayname", kind, text);
  }

  lemma CtagIsRead(path: seq<string>, kind: PieceKind, text: string)
    requires Unknown(path)
    ensures ReadItems(Events(OneResponse(Wrapped(path, TextElement("getctag", kind, text))))) ==
            Ok([EMPTY_ITEM.(ctag := Some(Trim(text)))])
  {
    ReadsOneElement(path, "getctag", kind, text);
  }

  lemma EtagIsRead(path: seq<string>, kind: PieceKind, text: string)
    requires Unknown(path)
    ensures ReadItems(Events(OneResponse(Wrapped(path, TextElement("getetag", kind, text))))) ==
            Ok([EMPTY_ITEM.(etag := Some(Trim(text)))])
  {
    ReadsOneElement(path, "getetag", kind, text);
  }

  /** Address data is not trimmed. */
  lemma AddressDataIsRead(path: seq<string>, kind: PieceKind, text: string)
    requires Unknown(path)
    ensures ReadItems(Events(OneResponse(Wrapped(path, TextElement("address-data", kind, text))))) ==
            Ok([EMPTY_ITEM.(addressData := Some(text))])
  {
    ReadsOneElement(path, "address-data", kind, text);
  }

  lemma ReadsHref(path: seq<string>, kind: PieceKind, text: string, name: string)
    requires Unknown(path) && name == "href"
    ensures ReadItems(Events(OneResponse(Wrapped(path, TextElement(name, kind, text))))) ==
            Ok([ItemWith(CaptureOf(name, Some(ParentIn(path))), text)])
  {
    assert "href"[0] != "response"[0] && "href"[0] != "addressbook"[0];
    ReadsOneElement(path, name, kind, text);
  }

  lemma HrefUnder(path: seq<string>, kind: PieceKind, text: string, name: string, parent: string,
                  target: Option<Capture>)
    requires Unknown(path) && name == "href" && parent == ParentIn(path)
    requires CaptureOf(name, Some(parent)) == target
    ensures ReadItems(Events(OneResponse(Wrapped(path, TextElement(name, kind, text))))) == Ok([ItemWith(target, text)])
  {
    ReadsHref(path, kind, text, name);
  }

  lemma HrefRoutes(name: string, parent: string)
    requires name == "href"
    ensures parent == "response" ==> CaptureOf(name, Some(parent)) == Some(Href)
    ensures parent == "current-user-principal" ==> CaptureOf(name, Some(parent)) == Some(CurrentPrincipal)
    ensures parent == "addressbook-home-set" ==> CaptureOf(name, Some(parent)) == Some(AddressbookHome)
    ensures parent != "response" && parent != "current-user-principal" && parent != "addressbook-home-set" ==>
      CaptureOf(name, Some(parent)) == None
  {
    assert "response"[0] == 'r' && "current-user-principal"[0] == 'c' && "addressbook-home-set"[0] == 'a';
  }

  /** A `href` directly inside the response is the item's own. */
  lemma OwnHrefIsRead(kind: PieceKind, text: string, name: string)
    requires name == "href"
    ensures ReadItems(Events(OneResponse(TextElement(name, kind, text)))) == Ok([EMPTY_ITEM.(href := Some(Trim(text)))])
  {
    assert Wrapped([], TextElement(name, kind, text)) == TextElement(name, kind, text);
    HrefRoutes(name, ParentIn([]));
    HrefUnder([], kind, text, name, ParentIn([]), Some(Href));
  }

  /** What a `href` inside an element of this name sets: the principal, the address book home, or nothing. */
  function HrefItem(parent: string, text: string): DavItem {
    if parent == "current-user-principal" then EMPTY_ITEM.(currentUserPrincipal := Some(Trim(text)))
    else if parent == "addressbook-home-set" then EMPTY_ITEM.(addressbookHome := Some(Trim(text)))
    else EMPTY_ITEM
  }

  lemma HrefItemIs(name: string, parent: string, text: string)
    requires name == "href" && parent != "response"
    ensures ItemWith(CaptureOf(name, Some(parent)), text) == HrefItem(parent, text)
  {
    HrefRoutes(name, parent);
  }

  lemma InnerHref(path: seq<string>, kind: PieceKind, text: string, name: string, parent: string, item: DavItem)
    requires name == "href" && Unknown(path) && parent == ParentIn(path)
    requires ItemWith(CaptureOf(name, Some(parent)), text) == item
    ensures ReadItems(Events(OneResponse(Wrapped(path, TextElement(name, kind, text))))) == Ok([item])
  {
    ReadsHref(path, kind, text, name);
  }

  /** One inside another element is routed by that element alone. */
  lemma InnerHrefIsRouted(path: seq<string>, kind: PieceKind, text: string, name: string)
    requires name == "href" && Unknown(path) && path != []
    ensures ReadItems(Events(OneResponse(Wrapped(path, TextElement(name, kind, text))))) ==
            Ok([HrefItem(path[|path| - 1], text)])
  {
    var parent := ParentIn(path);
    assert ItemWith(CaptureOf(name, Some(parent)), text) == HrefItem(parent, text) by {
      NotAResponse(path);
      HrefItemIs(name, parent, text);
    }
    InnerHref(path, kind, text, name, parent, HrefItem(parent, text));
  }

  lemma NotAResponse(path: seq<string>)
    requires Unknown(path) && path != []
    ensures path[|path| - 1] != "response"
  {
    assert path[|path| - 1] !in KNOWN;
  }

  /** The text of any other element sets nothing. */
  lemma OtherTextIsIgnored(path: seq<string>, name: string, kind: PieceKind, text: string)
    requires Unknown(path) && name !in KNOWN
    ensures ReadItems(Events(OneResponse(Wrapped(path, TextElement(name, kind, text))))) == Ok([EMPTY_ITEM])
  {
    ReadsOneElement(path, name, kind, text);
  }

  /** An `addressbook` element, with or without content, marks the item. */
  lemma AddressbookIsMarked(path: seq<string>, closed: bool)
    requires Unknown(path)
    ensures ReadItems(Events(OneResponse(Wrapped(path,
              if closed then Closed("addressbook", Done) else Element("addressbook", Done, Done))))) ==
            Ok([EMPTY_ITEM.(isAddressbook := true)])
  {
    var inner := if closed then Closed("addressbook", Done) else Element("addressbook", Done, Done);
    var content := Wrapped(path, inner);
    forall field ensures PlainField(field, content) == None {
      WrappedTexts(field, path, "response", inner);
      assert PlainTexts(field, inner, ParentIn(path)) == [];
    }
    WrappedTexts(Href, path, "response", inner);
    WrappedHolds(path, inner);
    assert !HoldsResponse(inner) && FlatFields(inner, ParentIn(path)) && PlainlyDecodable(inner, ParentIn(path));
    ItemOfResponse(content, EMPTY_ITEM.(isAddressbook := true));
  }

  // ---- Inside a field

  /** A display name with text, an element of another name with text, and text again. */
  function MixedName(name: string, before: string, inside: string, after: string): Content {
    Element("displayname",
            Piece(AsText, Some(before),
                  Element(name, Piece(AsText, Some(inside), Done), Piece(AsText, Some(after), Done))),
            Done)
  }

  /** Text of elements of any other name, inside a field, belongs to the field, as does the text around them. */
  lemma UnknownElementsKeepField(name: string, before: string, inside: string, after: string)
    requires name !in KNOWN
    ensures ReadItems(Events(OneResponse(MixedName(name, before, inside, after)))) ==
            Ok([EMPTY_ITEM.(displayName := Some(Trim(before + (inside + after))))])
  {
    var content, text := MixedName(name, before, inside, after), before + (inside + after);
    MixedNameFeeds(name, before, inside, after);
    PlainItemWith(content, Some(DisplayName), text);
    ItemOfResponse(content, ItemWith(Some(DisplayName), text));
  }

  lemma MixedNameFeeds(name: string, before: string, inside: string, after: string)
    requires name !in KNOWN
    ensures var content := MixedName(name, before, inside, after);
      && Feeds(content, Some(DisplayName), before + (inside + after))
      && FlatFields(content, "response") && PlainlyDecodable(content, "response")
      && !HoldsResponse(content) && !HoldsAddressbook(content)
  {
    var children := MixedName(name, before, inside, after).children;
    FieldContentTexts(name, before, inside, after);
    ThreeTexts(before, inside, after);
    NamedFeeds(children);
    assert "displayname"[0] != "response"[0] && "displayname"[0] != "addressbook"[0];
  }

  lemma NamedFeeds(children: Content)
    ensures var content := Element("displayname", children, Done);
      && (forall field :: PlainTexts(field, content, "response") ==
                          if field == DisplayName then TextsIn(children) else [])
      && PlainlyDecodable(content, "response") == AllDecodable(children)
      && FlatFields(content, "response") == !HoldsField(children)
  {
    assert CaptureOf("displayname", Some("response")) == Some(DisplayName);
    assert TextsIn(children) + [] == TextsIn(children);
    assert forall field :: PlainTexts(field, Done, "response") == [];
  }

  lemma FieldContentTexts(name: string, before: string, inside: string, after: string)
    requires name !in KNOWN
    ensures var children := Piece(AsText, Some(before), Element(name, Piece(AsText, Some(inside), Done),
                                    Piece(AsText, Some(after), Done)));
      && TextsIn(children) == [before, inside, after] && AllDecodable(children)
      && !HoldsField(children) && !HoldsResponse(children) && !HoldsAddressbook(children)
  {
    var last, nested := Piece(AsText, Some(after), Done), Piece(AsText, Some(inside), Done);
    assert TextsIn(last) == [after] && TextsIn(nested) == [inside];
    assert TextsIn(Element(name, nested, last)) == [inside, after];
    assert !EndsCapture(name);
    assert AllDecodable(last) && AllDecodable(nested) && !HoldsField(last) && !HoldsField(nested);
    assert !HoldsResponse(last) && !HoldsResponse(nested) && !HoldsAddressbook(last) && !HoldsAddressbook(nested);
  }

  lemma ThreeTexts(a: string, b: string, c: string)
    ensures FieldOf([a, b, c]) == Some(a + (b + c))
  {
    assert [a, b, c][1..] == [b, c] && [b, c][1..] == [c] && [c][1..] == [];
    assert Concat([c]) == c + [] == c;
    assert Concat([b, c]) == b + c;
  }

  // ---- The end of the events

  /** A tokenizer error anywhere before the end of the document is an error, and nothing behind the end of
      the document counts. */
  lemma ErrorsAndEnd(before: seq<XmlEvent>, behind: seq<XmlEvent>)
    requires NoEof(before)
    ensures ReadItems(before + ([Malformed] + behind)) == Err(XmlError)
    ensures ReadItems(before + ([Eof] + behind)) == ReadItems(before)
  {
    RunConcat(INITIAL, before, [Malformed] + behind);
    RunConcat(INITIAL, before, [Eof] + behind);
    assert ([Malformed] + behind)[0] == Malformed && ([Eof] + behind)[0] == Eof;
    match Run(INITIAL, before)
    case Err(XmlError) =>
    case Ok(r) => assert Run(r, [Malformed] + behind) == Err(XmlError);
  }
}
