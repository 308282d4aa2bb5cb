/** What a multistatus document says, defined recursively over its XML tree, and the proof that the
    streaming reader computes it for every tree.
 */
module MultistatusTree {
  import opened Text
  import opened Multistatus

  datatype PieceKind = AsText | AsCData | AsReference

  /** The content of an element, item by item. A self-closed element has no content of its own;
      `Misc` stands for comments, processing instructions and declarations. */
  datatype Content =
    | Done
    | Piece(kind: PieceKind, text: Option<string>, rest: Content)
    | Closed(name: string, rest: Content)
    | Misc(rest: Content)
    | Element(name: string, children: Content, rest: Content)

  function PieceEvent(kind: PieceKind, text: Option<string>): XmlEvent {
    match kind
    case AsText => Text(text)
    case AsCData => CData(text)
    case AsReference => GeneralRef(text)
  }

  /** The tokenizer's events for some content. */
  function Events(content: Content): seq<XmlEvent> {
    match content
    case Done => []
    case Piece(kind, text, rest) => [PieceEvent(kind, text)] + Events(rest)
    case Closed(name, rest) => [Empty(name)] + Events(rest)
    case Misc(rest) => [Other] + Events(rest)
    case Element(name, children, rest) => [Start(name)] + Events(children) + [End(name)] + Events(rest)
  }

  // ---- Which text feeds which field

  /** Is there an element at any depth whose end stops a capture? */
  predicate HoldsField(content: Content) {
    match content
    case Done => false
    case Piece(_, _, rest) => HoldsField(rest)
    case Closed(_, rest) => HoldsField(rest)
    case Misc(rest) => HoldsField(rest)
    case Element(name, children, rest) => EndsCapture(name) || HoldsField(children) || HoldsField(rest)
  }

  /** The field that text directly inside an element feeds, `mode` being that around the element. */
  function Inside(mode: Option<Capture>, name: string, parent: string): Option<Capture> {
    var kind := CaptureOf(name, Some(parent));
    if kind.Some? then kind else mode
  }

  /** The field that text behind some content feeds: none, once a field has been closed. */
  function ModeAfter(mode: Option<Capture>, content: Content): Option<Capture> {
    if HoldsField(content) then None else mode
  }

  /** The same behind one element. */
  function Behind(mode: Option<Capture>, name: string, children: Content): Option<Capture> {
    if EndsCapture(name) then None else ModeAfter(mode, children)
  }

  /** The pieces of text that feed `field`, in document order. */
  function TextsFor(field: Capture, content: Content, parent: string, mode: Option<Capture>): seq<string> {
    match content
    case Done => []
    case Piece(_, text, rest) =>
      (if mode == Some(field) && text.Some? then [text.value] else []) + TextsFor(field, rest, parent, mode)
    case Closed(_, rest) => TextsFor(field, rest, parent, mode)
    case Misc(rest) => TextsFor(field, rest, parent, mode)
    case Element(name, children, rest) =>
      TextsFor(field, children, name, Inside(mode, name, parent))
      + TextsFor(field, rest, parent, Behind(mode, name, children))
  }

  /** Is every piece of text that feeds a field decodable? */
  predicate Decodable(content: Content, parent: string, mode: Option<Capture>) {
    match content
    case Done => true
    case Piece(_, text, rest) => (mode.Some? ==> text.Some?) && Decodable(rest, parent, mode)
    case Closed(_, rest) => Decodable(rest, parent, mode)
    case Misc(rest) => Decodable(rest, parent, mode)
    case Element(name, children, rest) =>
      && Decodable(children, name, Inside(mode, name, parent))
      && Decodable(rest, parent, Behind(mode, name, children))
  }

  /** Is there an `addressbook` element at any depth? */
  predicate HoldsAddressbook(content: Content) {
    match content
    case Done => false
    case Piece(_, _, rest) => HoldsAddressbook(rest)
    case Closed(name, rest) => name == "addressbook" || HoldsAddressbook(rest)
    case Misc(rest) => HoldsAddressbook(rest)
    case Element(name, children, rest) =>
      name == "addressbook" || HoldsAddressbook(children) || HoldsAddressbook(rest)
  }

  // ---- Which responses become items

  predicate HoldsResponse(content: Content) {
    match content
    case Done => false
    case Piece(_, _, rest) => HoldsResponse(rest)
    case Closed(_, rest) => HoldsResponse(rest)
    case Misc(rest) => HoldsResponse(rest)
    case Element(name, children, rest) => name == "response" || HoldsResponse(children) || HoldsResponse(rest)
  }

  /** A field is the concatenation of its pieces, and absent when there is no piece at all. */
  function FieldOf(texts: seq<string>): Option<string> {
    if texts == [] then None else Some(Concat(texts))
  }

  function Field(field: Capture, content: Content, mode: Option<Capture>): Option<string> {
    FieldOf(TextsFor(field, content, "response", mode))
  }

  /** The item that the content of one `response` element describes. */
  function ItemOf(content: Content, mode: Option<Capture>): DavItem {
    DavItem(
      TrimField(Field(Href, content, mode)),
      TrimField(Field(DisplayName, content, mode)),
      TrimField(Field(Ctag, content, mode)),
      TrimField(Field(Etag, content, mode)),
      Field(AddressData, content, mode),
      TrimField(Field(CurrentPrincipal, content, mode)),
      TrimField(Field(AddressbookHome, content, mode)),
      HoldsAddressbook(content))
  }

  function Together(a: Option<seq<DavItem>>, b: Option<seq<DavItem>>): Option<seq<DavItem>> {
    if a.Some? && b.Some? then Some(a.value + b.value) else None
  }

  /** The items of content outside of any response, in document order; `None` when one cannot be read. */
  function ItemsIn(content: Content, mode: Option<Capture>): Option<seq<DavItem>>
    decreases content, 0
  {
    match content
    case Done => Some([])
    case Piece(_, _, rest) => ItemsIn(rest, mode)
    case Closed(_, rest) => ItemsIn(rest, mode)
    case Misc(rest) => ItemsIn(rest, mode)
    case Element(name, children, rest) =>
      Together(if name == "response" then ResponseItems(children, mode) else ItemsIn(children, mode),
               ItemsIn(rest, Behind(mode, name, children)))
  }

  /** A response is one item, unless it holds another response, which takes its place. */
  function ResponseItems(children: Content, mode: Option<Capture>): Option<seq<DavItem>>
    decreases children, 1
  {
    if HoldsResponse(children) then Interrupted(children, "response", mode)
    else if Decodable(children, "response", mode) then Some([ItemOf(children, mode)])
    else None
  }

  /** The items of content of a response up to the first response nested in it and behind. What the
      outer response said before is dropped, and what it says behind is no longer inside a response. */
  function Interrupted(content: Content, parent: string, mode: Option<Capture>): Option<seq<DavItem>>
    decreases content, 0
  {
    match content
    case Done => Some([])
    case Piece(_, text, rest) => if mode.Some? && text.None? then None else Interrupted(rest, parent, mode)
    case Closed(_, rest) => Interrupted(rest, parent, mode)
    case Misc(rest) => Interrupted(rest, parent, mode)
    case Element(name, children, rest) =>
      var inner, behind := Inside(mode, name, parent), Behind(mode, name, children);
      if name == "response" then Together(ResponseItems(children, mode), ItemsIn(rest, behind))
      else if HoldsResponse(children) then Together(Interrupted(children, name, inner), ItemsIn(rest, behind))
      else if Decodable(children, name, inner) then Interrupted(rest, parent, behind)
      else None
  }

  // ---- Running over concatenated events

  predicate NoEof(events: seq<XmlEvent>) {
    forall i :: 0 <= i < |events| ==> events[i] != Eof
  }

  lemma {:induction false} EventsHaveNoEof(content: Content)
    ensures NoEof(Events(content))
  {
    match content
    case Done =>
    case Piece(_, _, rest) => EventsHaveNoEof(rest);
    case Closed(_, rest) => EventsHaveNoEof(rest);
    case Misc(rest) => EventsHaveNoEof(rest);
    case Element(_, children, rest) => EventsHaveNoEof(children); EventsHaveNoEof(rest);
  }

  function AndThen(result: Result<Reader, XmlError>, events: seq<XmlEvent>): Result<Reader, XmlError> {
    match result
    case Err(e) => Err(e)
    case Ok(r) => Run(r, events)
  }

  lemma {:induction false} RunConcat(r: Reader, a: seq<XmlEvent>, b: seq<XmlEvent>)
    requires NoEof(a)
    ensures Run(r, a + b) == AndThen(Run(r, a), b)
    decreases |a|
  {
    if a == [] {
      assert a + b == b;
    } else {
      assert (a + b)[1..] == a[1..] + b;
      match Step(r, a[0])
      case Err(_) =>
      case Ok(next) => RunConcat(next, a[1..], b);
    }
  }

  lemma RunOne(r: Reader, event: XmlEvent, rest: seq<XmlEvent>)
    requires event != Eof
    ensures Run(r, [event] + rest) == AndThen(Step(r, event), rest)
  {
    assert ([event] + rest)[1..] == rest;
  }

  function AfterChildren(result: Result<Reader, XmlError>, name: string, rest: Content): Result<Reader, XmlError> {
    match result
    case Err(e) => Err(e)
    case Ok(inner) => Run(OnEnd(inner, name), Events(rest))
  }

  /** An element is its start, its content, its end and what follows. */
  lemma RunElement(r: Reader, name: string, children: Content, rest: Content)
    ensures Run(r, Events(Element(name, children, rest))) ==
            AfterChildren(Run(OnStart(r, name), Events(children)), name, rest)
  {
    var body := Events(children) + ([End(name)] + Events(rest));
    assert Events(Element(name, children, rest)) == [Start(name)] + body;
    RunOne(r, Start(name), body);
    EventsHaveNoEof(children);
    RunConcat(OnStart(r, name), Events(children), [End(name)] + Events(rest));
    var result := Run(OnStart(r, name), Events(children));
    if result.Ok? {
      RunOne(result.value, End(name), Events(rest));
    }
  }

  // ---- Items field by field

  function FieldAt(item: DavItem, field: Capture): Option<string> {
    match field
    case Href => item.href
    case CurrentPrincipal => item.currentUserPrincipal
    case AddressbookHome => item.addressbookHome
    case DisplayName => item.displayName
    case Ctag => item.ctag
    case Etag => item.etag
    case AddressData => item.addressData
  }

  /** A field after more pieces of its text have arrived. */
  function Grown(field: Option<string>, texts: seq<string>): Option<string> {
    if texts == [] then field
    else Some((if field.Some? then field.value else "") + Concat(texts))
  }

  lemma GrownTwice(field: Option<string>, a: seq<string>, b: seq<string>)
    ensures Grown(Grown(field, a), b) == Grown(field, a + b)
  {
    ConcatOfConcat(a, b);
    var s := if field.Some? then field.value else "";
    assert s + Concat(a) + Concat(b) == s + (Concat(a) + Concat(b));
    if a == [] { assert a + b == b; }
    if b == [] { assert a + b == a; }
  }

  /** One appended piece grows its own field and no other. */
  lemma AppendedField(item: DavItem, capture: Capture, text: string, field: Capture)
    ensures FieldAt(AppendCapture(item, capture, text), field) ==
            Grown(FieldAt(item, field), if field == capture then [text] else [])
    ensures AppendCapture(item, capture, text).isAddressbook == item.isAddressbook
  {
    assert Concat([text]) == text by {
      assert [text][1..] == [];
    }
    assert "" + text == text;
  }

  /** `after` is `before` with, for every field, the text that the content feeds to it. */
  ghost predicate Absorbed(before: DavItem, after: DavItem, content: Content, parent: string, mode: Option<Capture>) {
    && (forall field :: FieldAt(after, field) == Grown(FieldAt(before, field), TextsFor(field, content, parent, mode)))
    && after.isAddressbook == (before.isAddressbook || HoldsAddressbook(content))
  }

  lemma AbsorbedPiece(a: DavItem, b: DavItem, c: DavItem, content: Content, parent: string, mode: Option<Capture>)
    requires content.Piece? && (mode.Some? ==> content.text.Some?)
    requires b == if mode.Some? then AppendCapture(a, mode.value, content.text.value) else a
    requires Absorbed(b, c, content.rest, parent, mode)
    ensures Absorbed(a, c, content, parent, mode)
  {
    forall field
      ensures FieldAt(c, field) == Grown(FieldAt(a, field), TextsFor(field, content, parent, mode))
    {
      var here := if mode == Some(field) then [content.text.value] else [];
      if mode.Some? {
        AppendedField(a, mode.value, content.text.value, field);
      }
      assert FieldAt(b, field) == Grown(FieldAt(a, field), here);
      assert TextsFor(field, content, parent, mode) == here + TextsFor(field, content.rest, parent, mode);
      GrownTwice(FieldAt(a, field), here, TextsFor(field, content.rest, parent, mode));
    }
  }

  lemma AbsorbedLeaf(a: DavItem, b: DavItem, c: DavItem, content: Content, parent: string, mode: Option<Capture>)
    requires content.Closed? || content.Misc?
    requires b == if content.Closed? && content.name == "addressbook" then a.(isAddressbook := true) else a
    requires Absorbed(b, c, content.rest, parent, mode)
    ensures Absorbed(a, c, content, parent, mode)
  {
    forall field
      ensures TextsFor(field, content, parent, mode) == TextsFor(field, content.rest, parent, mode)
      ensures FieldAt(a, field) == FieldAt(b, field)
    {
    }
  }

  lemma AbsorbedElement(a: DavItem, b: DavItem, c: DavItem, content: Content, parent: string, mode: Option<Capture>)
    requires content.Element?
    requires Absorbed(if content.name == "addressbook" then a.(isAddressbook := true) else a, b,
                      content.children, content.name, Inside(mode, content.name, parent))
    requires Absorbed(b, c, content.rest, parent, Behind(mode, content.name, content.children))
    ensures Absorbed(a, c, content, parent, mode)
  {
    var start := if content.name == "addressbook" then a.(isAddressbook := true) else a;
    forall field
      ensures FieldAt(c, field) == Grown(FieldAt(a, field), TextsFor(field, content, parent, mode))
    {
      var inside := TextsFor(field, content.children, content.name, Inside(mode, content.name, parent));
      var behind := TextsFor(field, content.rest, parent, Behind(mode, content.name, content.children));
      assert FieldAt(start, field) == FieldAt(a, field);
      assert TextsFor(field, content, parent, mode) == inside + behind;
      GrownTwice(FieldAt(a, field), inside, behind);
    }
  }

  lemma FreshItem(item: DavItem, children: Content, mode: Option<Capture>)
    requires Absorbed(EMPTY_ITEM, item, children, "response", mode)
    ensures TrimItem(item) == ItemOf(children, mode)
  {
    forall field ensures FieldAt(item, field) == Field(field, children, mode) {
      var texts := TextsFor(field, children, "response", mode);
      assert FieldAt(EMPTY_ITEM, field) == None;
      assert "" + Concat(texts) == Concat(texts);
    }
    assert FieldAt(item, Href) == Field(Href, children, mode);
    assert FieldAt(item, CurrentPrincipal) == Field(CurrentPrincipal, children, mode);
    assert FieldAt(item, AddressbookHome) == Field(AddressbookHome, children, mode);
    assert FieldAt(item, DisplayName) == Field(DisplayName, children, mode);
    assert FieldAt(item, Ctag) == Field(Ctag, children, mode);
    assert FieldAt(item, Etag) == Field(Etag, children, mode);
    assert FieldAt(item, AddressData) == Field(AddressData, children, mode);
  }

  // ---- Inside a response that holds no other

  predicate InResponse(r: Reader, parent: string) {
    r.current.Some? && Last(r.stack) == Some(parent)
  }

  /** Reading content fills the item in and moves the capture, or fails. */
  ghost predicate FillsItem(r: Reader, result: Result<Reader, XmlError>, content: Content, parent: string)
    requires r.current.Some?
  {
    if Decodable(content, parent, r.capture) then
      && result.Ok? && result.value.current.Some?
      && result.value == r.(current := result.value.current, capture := ModeAfter(r.capture, content))
      && Absorbed(r.current.value, result.value.current.value, content, parent, r.capture)
    else result == Err(XmlError)
  }

  /** The start of an element other than a response, inside a response. */
  lemma StartInResponse(r: Reader, name: string, parent: string)
    requires InResponse(r, parent) && name != "response"
    ensures var start := OnStart(r, name);
      && InResponse(start, name) && start.stack[..|start.stack| - 1] == r.stack && start.output == r.output
      && start.capture == Inside(r.capture, name, parent)
      && start.current.value ==
         if name == "addressbook" then r.current.value.(isAddressbook := true) else r.current.value
  {
    var start := OnStart(r, name);
    assert start.stack == r.stack + [name];
  }

  /** The reader behind an element whose content left it as `inner`. */
  lemma EndOfElement(r: Reader, inner: Reader, name: string, children: Content, parent: string)
    requires name != "response" && inner.stack == r.stack + [name]
    requires inner.capture == ModeAfter(Inside(r.capture, name, parent), children)
    ensures OnEnd(inner, name) ==
            Reader(r.stack, inner.current, Behind(r.capture, name, children), inner.output)
  {
    assert inner.stack[..|inner.stack| - 1] == r.stack;
  }

  lemma {:induction false} ResponseRun(r: Reader, content: Content, parent: string)
    requires InResponse(r, parent) && !HoldsResponse(content)
    ensures FillsItem(r, Run(r, Events(content)), content, parent)
    decreases content, 0
  {
    match content
    case Done =>
      NothingAbsorbed(r.current.value, parent, r.capture);
    case Piece(kind, text, rest) =>
      RunOne(r, PieceEvent(kind, text), Events(rest));
      var step := OnPiece(r, text);
      if step.Ok? {
        ResponseRun(step.value, rest, parent);
        if Decodable(rest, parent, r.capture) {
          var last := Run(step.value, Events(rest)).value.current.value;
          AbsorbedPiece(r.current.value, step.value.current.value, last, content, parent, r.capture);
        }
      }
    case Closed(name, rest) =>
      RunOne(r, Empty(name), Events(rest));
      ResponseLeaf(r, OnEmpty(r, name), content, parent);
    case Misc(rest) =>
      RunOne(r, Other, Events(rest));
      ResponseLeaf(r, r, content, parent);
    case Element(name, children, rest) =>
      RunElement(r, name, children, rest);
      StartInResponse(r, name, parent);
      var start := OnStart(r, name);
      ResponseRun(start, children, name);
      if Decodable(children, name, start.capture) {
        var inner := Run(start, Events(children)).value;
        EndOfElement(r, inner, name, children, parent);
        ResponseElementRest(r, inner, content, parent);
      }
  }

  lemma NothingAbsorbed(item: DavItem, parent: string, mode: Option<Capture>)
    ensures Absorbed(item, item, Done, parent, mode)
  {
  }

  lemma {:induction false} ResponseLeaf(r: Reader, next: Reader, content: Content, parent: string)
    requires content.Closed? || content.Misc?
    requires InResponse(r, parent) && !HoldsResponse(content)
    requires next == if content.Closed? then OnEmpty(r, content.name) else r
    ensures FillsItem(r, Run(next, Events(content.rest)), content, parent)
    decreases content.rest, 1
  {
    ResponseRun(next, content.rest, parent);
    if Decodable(content.rest, parent, r.capture) {
      var last := Run(next, Events(content.rest)).value.current.value;
      AbsorbedLeaf(r.current.value, next.current.value, last, content, parent, r.capture);
    }
  }

  /** What is behind an element continues with the item as the element left it. */
  lemma {:induction false} ResponseElementRest(r: Reader, inner: Reader, content: Content, parent: string)
    requires content.Element? && InResponse(r, parent) && !HoldsResponse(content)
    requires inner.current.Some? && inner.output == r.output
    requires Decodable(content.children, content.name, Inside(r.capture, content.name, parent))
    requires OnEnd(inner, content.name) ==
             r.(current := inner.current, capture := Behind(r.capture, content.name, content.children))
    requires Absorbed(OnStart(r, content.name).current.value, inner.current.value,
                      content.children, content.name, Inside(r.capture, content.name, parent))
    ensures FillsItem(r, Run(OnEnd(inner, content.name), Events(content.rest)), content, parent)
    decreases content.rest, 1
  {
    var next := OnEnd(inner, content.name);
    ResponseRun(next, content.rest, parent);
    if Decodable(content.rest, parent, next.capture) {
      var last := Run(next, Events(content.rest)).value.current.value;
      AbsorbedElement(r.current.value, inner.current.value, last, content, parent, r.capture);
    }
  }

  // ---- Outside of responses, and inside responses that hold responses

  /** The reader has left every response behind, with the items found. */
  function Emitted(r: Reader, items: Option<seq<DavItem>>, content: Content): Result<Reader, XmlError> {
    match items
    case None => Err(XmlError)
    case Some(found) => Ok(Reader(r.stack, None, ModeAfter(r.capture, content), r.output + found))
  }

  lemma {:induction false} DocumentRun(r: Reader, content: Content)
    requires r.current.None?
    ensures Run(r, Events(content)) == Emitted(r, ItemsIn(content, r.capture), content)
    decreases content, 0
  {
    match content
    case Done =>
      assert r.output + [] == r.output;
    case Piece(kind, text, rest) =>
      RunOne(r, PieceEvent(kind, text), Events(rest));
      DocumentRun(r, rest);
    case Closed(name, rest) =>
      RunOne(r, Empty(name), Events(rest));
      DocumentRun(r, rest);
    case Misc(rest) =>
      RunOne(r, Other, Events(rest));
      DocumentRun(r, rest);
    case Element(name, children, rest) =>
      RunElement(r, name, children, rest);
      var start := OnStart(r, name);
      assert start.stack[..|start.stack| - 1] == r.stack;
      if name == "response" {
        NewResponse(r, start, children);
        EmittedThen(r, ResponseItems(children, r.capture), content);
      } else {
        DocumentRun(start, children);
        EmittedThen(r, ItemsIn(children, r.capture), content);
      }
  }

  /** Behind an element that emitted the items `here`, the reader goes on outside of any response. */
  lemma {:induction false} EmittedThen(r: Reader, here: Option<seq<DavItem>>, content: Content)
    requires content.Element?
    ensures here.Some? ==>
      var next := Reader(r.stack, None, Behind(r.capture, content.name, content.children), r.output + here.value);
      Run(next, Events(content.rest)) ==
      Emitted(r, Together(here, ItemsIn(content.rest, next.capture)), content)
    decreases content.rest, 1
  {
    if here.Some? {
      var next := Reader(r.stack, None, Behind(r.capture, content.name, content.children), r.output + here.value);
      DocumentRun(next, content.rest);
      var behind := ItemsIn(content.rest, next.capture);
      if behind.Some? {
        assert r.output + here.value + behind.value == r.output + (here.value + behind.value);
      }
    }
  }

  /** A response, wherever it starts, ends with its items emitted. */
  lemma {:induction false} NewResponse(r: Reader, start: Reader, children: Content)
    requires start == Reader(r.stack + ["response"], Some(EMPTY_ITEM), r.capture, r.output)
    ensures var result := Run(start, Events(children));
      var items := ResponseItems(children, r.capture);
      if items.None? then result == Err(XmlError)
      else result.Ok? && OnEnd(result.value, "response") ==
                         Reader(r.stack, None, Behind(r.capture, "response", children), r.output + items.value)
    decreases children, 2
  {
    assert Last(start.stack) == Some("response");
    assert start.stack[..|start.stack| - 1] == r.stack;
    if HoldsResponse(children) {
      InterruptedRun(start, children, "response");
    } else {
      ResponseRun(start, children, "response");
      if Decodable(children, "response", r.capture) {
        FreshItem(Run(start, Events(children)).value.current.value, children, r.capture);
      }
    }
  }

  /** A nested response replaces the item of the outer one. */
  lemma {:induction false} InterruptedRun(r: Reader, content: Content, parent: string)
    requires InResponse(r, parent) && HoldsResponse(content)
    ensures Run(r, Events(content)) == Emitted(r, Interrupted(content, parent, r.capture), content)
    decreases content, 1
  {
    match content
    case Piece(kind, text, rest) =>
      RunOne(r, PieceEvent(kind, text), Events(rest));
      var step := OnPiece(r, text);
      if step.Ok? {
        InterruptedRun(step.value, rest, parent);
      }
    case Closed(name, rest) =>
      RunOne(r, Empty(name), Events(rest));
      InterruptedRun(OnEmpty(r, name), rest, parent);
    case Misc(rest) =>
      RunOne(r, Other, Events(rest));
      InterruptedRun(r, rest, parent);
    case Element(name, children, rest) =>
      RunElement(r, name, children, rest);
      if name == "response" {
        NewResponse(r, OnStart(r, name), children);
        EmittedThen(r, ResponseItems(children, r.capture), content);
      } else {
        InterruptedElement(r, content, parent);
      }
  }

  lemma {:induction false} InterruptedElement(r: Reader, content: Content, parent: string)
    requires InResponse(r, parent) && HoldsResponse(content)
    requires content.Element? && content.name != "response"
    ensures AfterChildren(Run(OnStart(r, content.name), Events(content.children)), content.name, content.rest) ==
            Emitted(r, Interrupted(content, parent, r.capture), content)
    decreases content, 0
  {
    var name, children, rest := content.name, content.children, content.rest;
    var start := OnStart(r, name);
    StartInResponse(r, name, parent);
    if HoldsResponse(children) {
      InterruptedRun(start, children, name);
      var items := Interrupted(children, name, start.capture);
      if items.Some? {
        EndOfElement(r, Run(start, Events(children)).value, name, children, parent);
        EmittedThen(r, items, content);
      }
    } else {
      ResponseRun(start, children, name);
      if Decodable(children, name, start.capture) {
        var inner := Run(start, Events(children)).value;
        EndOfElement(r, inner, name, children, parent);
        InterruptedRun(OnEnd(inner, name), rest, parent);
      }
    }
  }

  /** For every tree, the streaming reader returns what the recursive definition extracts, and fails
      exactly when a piece of text that feeds a field cannot be decoded. */
  lemma ReaderExtractsTree(document: Content)
    ensures ReadItems(Events(document)) ==
            var items := ItemsIn(document, None);
            if items.Some? then Ok(items.value) else Err(XmlError)
  {
    DocumentRun(INITIAL, document);
    var items := ItemsIn(document, None);
    if items.Some? {
      assert [] + items.value == items.value;
    }
  }
}
