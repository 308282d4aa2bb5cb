/** `parse_multistatus`: a streaming reader of WebDAV multistatus bodies (RFC 4918 sections
    14.16 and 14.24) over the events of an XML tokenizer.
 */
module Multistatus {
  import opened Text

  /** What the tokenizer delivers; element names are local names. A piece of text that cannot be
      decoded, or a reference that cannot be resolved, has no content. */
  datatype XmlEvent =
    | Start(name: string)
    | Empty(name: string)
    | Text(content: Option<string>)
    | CData(content: Option<string>)
    | GeneralRef(content: Option<string>)
    | End(name: string)
    | Other
    | Eof
    | Malformed

  datatype Capture = Href | CurrentPrincipal | AddressbookHome | DisplayName | Ctag | Etag | AddressData

  datatype DavItem = DavItem(
    href: Option<string>,
    displayName: Option<string>,
    ctag: Option<string>,
    etag: Option<string>,
    addressData: Option<string>,
    currentUserPrincipal: Option<string>,
    addressbookHome: Option<string>,
    isAddressbook: bool
  )

  const EMPTY_ITEM := DavItem(None, None, None, None, None, None, None, false)

  datatype XmlError = XmlError

  /** `get_or_insert_with(String::new).push_str(text)`. */
  function Pushed(field: Option<string>, text: string): Option<string> {
    match field
    case Some(s) => Some(s + text)
    case None => Some(text)
  }

  function AppendCapture(item: DavItem, capture: Capture, text: string): DavItem {
    match capture
    case Href => item.(href := Pushed(item.href, text))
    case CurrentPrincipal => item.(currentUserPrincipal := Pushed(item.currentUserPrincipal, text))
    case AddressbookHome => item.(addressbookHome := Pushed(item.addressbookHome, text))
    case DisplayName => item.(displayName := Pushed(item.displayName, text))
    case Ctag => item.(ctag := Pushed(item.ctag, text))
    case Etag => item.(etag := Pushed(item.etag, text))
    case AddressData => item.(addressData := Pushed(item.addressData, text))
  }

  function TrimField(field: Option<string>): Option<string> {
    match field
    case Some(s) => Some(Trim(s))
    case None => None
  }

  /** Every field but the address data is trimmed. */
  function TrimItem(item: DavItem): DavItem {
    item.(
    href := TrimField(item.href),
    displayName := TrimField(item.displayName),
    ctag := TrimField(item.ctag),
    etag := TrimField(item.etag),
    currentUserPrincipal := TrimField(item.currentUserPrincipal),
    addressbookHome := TrimField(item.addressbookHome))
  }

  // ---- The streaming reader

  datatype Reader = Reader(
    stack: seq<string>,
    current: Option<DavItem>,
    capture: Option<Capture>,
    output: seq<DavItem>
  )

  const INITIAL := Reader([], None, None, [])

  function Last(stack: seq<string>): Option<string> {
    if stack == [] then None else Some(stack[|stack| - 1])
  }

  /** The field that the text of an element feeds, from its name and the name of its parent. */
  function CaptureOf(name: string, parent: Option<string>): Option<Capture> {
    if name == "href" then
      if parent == Some("current-user-principal") then Some(CurrentPrincipal)
      else if parent == Some("addressbook-home-set") then Some(AddressbookHome)
      else if parent == Some("response") then Some(Href)
      else None
    else if name == "displayname" then Some(DisplayName)
    else if name == "getctag" then Some(Ctag)
    else if name == "getetag" then Some(Etag)
    else if name == "address-data" then Some(AddressData)
    else None
  }

  predicate EndsCapture(name: string) {
    name in {"href", "displayname", "getctag", "getetag", "address-data"}
  }

  function OnStart(r: Reader, name: string): Reader {
    var current := if name == "response" then Some(EMPTY_ITEM) else r.current;
    match current
    case None => r.(stack := r.stack + [name])
    case Some(item) =>
      r.(
      stack := r.stack + [name],
      current := Some(if name == "addressbook" then item.(isAddressbook := true) else item),
      capture := var kind := CaptureOf(name, Last(r.stack)); if kind.Some? then kind else r.capture)
  }

  function OnEmpty(r: Reader, name: string): Reader {
    if name == "addressbook" && r.current.Some? then
      r.(current := Some(r.current.value.(isAddressbook := true)))
    else r
  }

  function OnPiece(r: Reader, content: Option<string>): Result<Reader, XmlError> {
    if r.current.None? || r.capture.None? then Ok(r)
    else match content
      case None => Err(XmlError)
      case Some(text) => Ok(r.(current := Some(AppendCapture(r.current.value, r.capture.value, text))))
  }

  function OnEnd(r: Reader, name: string): Reader {
    var capture := if EndsCapture(name) then None else r.capture;
    var done := name == "response" && r.current.Some?;
    Reader(
      if r.stack == [] then [] else r.stack[..|r.stack| - 1],
      if done then None else r.current,
      capture,
      if done then r.output + [TrimItem(r.current.value)] else r.output)
  }

  function Step(r: Reader, event: XmlEvent): Result<Reader, XmlError> {
    match event
    case Start(name) => Ok(OnStart(r, name))
    case Empty(name) => Ok(OnEmpty(r, name))
    case Text(content) => OnPiece(r, content)
    case CData(content) => OnPiece(r, content)
    case GeneralRef(content) => OnPiece(r, content)
    case End(name) => Ok(OnEnd(r, name))
    case Other => Ok(r)
    case Eof => Ok(r)
    case Malformed => Err(XmlError)
  }

  /** The reader after all events, or the error that stops it. */
  function Run(r: Reader, events: seq<XmlEvent>): Result<Reader, XmlError>
    decreases |events|
  {
    if events == [] || events[0] == Eof then Ok(r)
    else match Step(r, events[0])
      case Err(e) => Err(e)
      case Ok(next) => Run(next, events[1..])
  }

  function ReadItems(events: seq<XmlEvent>): Result<seq<DavItem>, XmlError> {
    match Run(INITIAL, events)
    case Err(e) => Err(e)
    case Ok(r) => Ok(r.output)
  }

  /** The loop of the source, with its four variables. */
  method ParseMultistatus(events: seq<XmlEvent>) returns (result: Result<seq<DavItem>, XmlError>)
    ensures result == ReadItems(events)
  {
    var stack: seq<string> := [];
    var current: Option<DavItem> := None;
    var capture: Option<Capture> := None;
    var output: seq<DavItem> := [];
    var i := 0;
    while i < |events|
      invariant i <= |events|
      invariant Run(Reader(stack, current, capture, output), events[i..]) == Run(INITIAL, events)
    {
      var event := events[i];
      ghost var before := Reader(stack, current, capture, output);
      assert events[i..][1..] == events[i + 1..];
      i := i + 1;
      match event
      case Start(name) =>
        if name == "response" {
          current := Some(EMPTY_ITEM);
        }
        if current.Some? {
          if name == "addressbook" {
            current := Some(current.value.(isAddressbook := true));
          }
          var kind := CaptureOf(name, Last(stack));
          if kind.Some? {
            capture := kind;
          }
        }
        stack := stack + [name];
        assert Reader(stack, current, capture, output) == OnStart(before, name);
      case Empty(name) =>
        if name == "addressbook" && current.Some? {
          current := Some(current.value.(isAddressbook := true));
        }
      case Text(content) =>
        if current.Some? && capture.Some? {
          if content.None? {
            return Err(XmlError);
          }
          current := Some(AppendCapture(current.value, capture.value, content.value));
        }
      case CData(content) =>
        if current.Some? && capture.Some? {
          if content.None? {
            return Err(XmlError);
          }
          current := Some(AppendCapture(current.value, capture.value, content.value));
        }
      case GeneralRef(content) =>
        if current.Some? && capture.Some? {
          if content.None? {
            return Err(XmlError);
          }
          current := Some(AppendCapture(current.value, capture.value, content.value));
        }
      case End(name) =>
        if EndsCapture(name) {
          capture := None;
        }
        if name == "response" && current.Some? {
          output := output + [TrimItem(current.value)];
          current := None;
        }
        if stack != [] {
          stack := stack[..|stack| - 1];
        }
        assert Reader(stack, current, capture, output) == OnEnd(before, name);
      case Other =>
      case Eof =>
        break;
      case Malformed =>
        return Err(XmlError);
    }
    return Ok(output);
  }
}
