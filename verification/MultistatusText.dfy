/** How the text of a multistatus document is cut into pieces makes no difference. */
module MultistatusText {
  import opened Text
  import opened Multistatus
  import opened MultistatusTree

  /** The same content with every run of adjacent pieces joined into one plain text. */
  function Merged(content: Content): Content {
    match content
    case Done => Done
    case Piece(_, text, rest) => Prepended(text, Merged(rest))
    case Closed(name, rest) => Closed(name, Merged(rest))
    case Misc(rest) => Misc(Merged(rest))
    case Element(name, children, rest) => Element(name, Merged(children), Merged(rest))
  }

  function Prepended(text: Option<string>, content: Content): Content {
    if !content.Piece? then Piece(AsText, text, content)
    else if text.Some? && content.text.Some? then Piece(AsText, Some(text.value + content.text.value), content.rest)
    else Piece(AsText, None, content.rest)
  }

  /** Merging keeps the elements. */
  lemma {:induction false} MergedElements(content: Content)
    ensures HoldsField(Merged(content)) == HoldsField(content)
    ensures HoldsResponse(Merged(content)) == HoldsResponse(content)
    ensures HoldsAddressbook(Merged(content)) == HoldsAddressbook(content)
  {
    match content
    case Done =>
    case Piece(_, _, rest) => MergedElements(rest);
    case Closed(_, rest) => MergedElements(rest);
    case Misc(rest) => MergedElements(rest);
    case Element(_, children, rest) => MergedElements(children); MergedElements(rest);
  }

  lemma BehindMerged(mode: Option<Capture>, name: string, children: Content)
    ensures Behind(mode, name, Merged(children)) == Behind(mode, name, children)
  {
    MergedElements(children);
  }

  /** Two ways of cutting the same text: both absent, or equal when joined. */
  predicate SameText(a: seq<string>, b: seq<string>) {
    FieldOf(a) == FieldOf(b)
  }

  lemma SameTogether(a: seq<string>, b: seq<string>, c: seq<string>, d: seq<string>)
    requires SameText(a, b) && SameText(c, d)
    ensures SameText(a + c, b + d)
  {
    ConcatOfConcat(a, c);
    ConcatOfConcat(b, d);
    assert Concat(a) == Concat(b) && Concat(c) == Concat(d);
    assert a == [] <==> b == [];
  }

  lemma TwoPieces(x: string, y: string, rest: seq<string>)
    ensures SameText([x + y] + rest, [x] + ([y] + rest))
  {
    ConcatOfConcat([x], [y] + rest);
    ConcatOfConcat([y], rest);
    ConcatOfConcat([x + y], rest);
    assert [x][1..] == [] && [y][1..] == [] && [x + y][1..] == [];
    assert x + (y + Concat(rest)) == x + y + Concat(rest);
  }

  lemma PrependedText(field: Capture, text: Option<string>, content: Content, parent: string, mode: Option<Capture>)
    requires Decodable(Piece(AsText, text, content), parent, mode)
    ensures SameText(TextsFor(field, Prepended(text, content), parent, mode),
                     TextsFor(field, Piece(AsText, text, content), parent, mode))
  {
    if content.Piece? {
      var rest := TextsFor(field, content.rest, parent, mode);
      if mode == Some(field) {
        TwoPieces(text.value, content.text.value, rest);
      } else {
        assert [] + ([] + rest) == [] + rest;
      }
    }
  }

  lemma PrependedDecodable(text: Option<string>, content: Content, parent: string, mode: Option<Capture>)
    ensures Decodable(Prepended(text, content), parent, mode) == Decodable(Piece(AsText, text, content), parent, mode)
  {
  }

  lemma {:induction false} MergedDecodable(content: Content, parent: string, mode: Option<Capture>)
    ensures Decodable(Merged(content), parent, mode) == Decodable(content, parent, mode)
  {
    match content
    case Done =>
    case Piece(_, text, rest) =>
      MergedDecodable(rest, parent, mode);
      PrependedDecodable(text, Merged(rest), parent, mode);
    case Closed(_, rest) => MergedDecodable(rest, parent, mode);
    case Misc(rest) => MergedDecodable(rest, parent, mode);
    case Element(name, children, rest) =>
      MergedDecodable(children, name, Inside(mode, name, parent));
      MergedDecodable(rest, parent, Behind(mode, name, children));
      BehindMerged(mode, name, children);
  }

  lemma {:induction false} MergedTexts(field: Capture, content: Content, parent: string, mode: Option<Capture>)
    requires Decodable(content, parent, mode)
    ensures SameText(TextsFor(field, Merged(content), parent, mode), TextsFor(field, content, parent, mode))
  {
    match content
    case Done =>
    case Piece(_, text, rest) =>
      MergedTexts(field, rest, parent, mode);
      MergedDecodable(rest, parent, mode);
      PrependedText(field, text, Merged(rest), parent, mode);
      var here := if mode == Some(field) && text.Some? then [text.value] else [];
      SameTogether(here, here, TextsFor(field, Merged(rest), parent, mode), TextsFor(field, rest, parent, mode));
    case Closed(_, rest) => MergedTexts(field, rest, parent, mode);
    case Misc(rest) => MergedTexts(field, rest, parent, mode);
    case Element(name, children, rest) =>
      var inner, behind := Inside(mode, name, parent), Behind(mode, name, children);
      MergedTexts(field, children, name, inner);
      MergedTexts(field, rest, parent, behind);
      BehindMerged(mode, name, children);
      SameTogether(TextsFor(field, Merged(children), name, inner), TextsFor(field, children, name, inner),
                   TextsFor(field, Merged(rest), parent, behind), TextsFor(field, rest, parent, behind));
  }

  lemma MergedItem(content: Content, mode: Option<Capture>)
    requires Decodable(content, "response", mode)
    ensures ItemOf(Merged(content), mode) == ItemOf(content, mode)
  {
    forall field ensures Field(field, Merged(content), mode) == Field(field, content, mode) {
      MergedTexts(field, content, "response", mode);
    }
    MergedElements(content);
  }

  lemma {:induction false} MergedResponse(children: Content, mode: Option<Capture>)
    ensures ResponseItems(Merged(children), mode) == ResponseItems(children, mode)
    decreases children, 1
  {
    MergedElements(children);
    if HoldsResponse(children) {
      MergedInterrupted(children, "response", mode);
    } else {
      MergedDecodable(children, "response", mode);
      if Decodable(children, "response", mode) {
        MergedItem(children, mode);
      }
    }
  }

  lemma PrependedInterrupted(text: Option<string>, content: Content, parent: string, mode: Option<Capture>)
    ensures Interrupted(Prepended(text, content), parent, mode) ==
            Interrupted(Piece(AsText, text, content), parent, mode)
  {
  }

  lemma {:induction false} MergedInterrupted(content: Content, parent: string, mode: Option<Capture>)
    ensures Interrupted(Merged(content), parent, mode) == Interrupted(content, parent, mode)
    decreases content, 0
  {
    match content
    case Done =>
    case Piece(_, text, rest) =>
      MergedInterrupted(rest, parent, mode);
      PrependedInterrupted(text, Merged(rest), parent, mode);
    case Closed(_, rest) => MergedInterrupted(rest, parent, mode);
    case Misc(rest) => MergedInterrupted(rest, parent, mode);
    case Element(name, children, rest) =>
      var inner, behind := Inside(mode, name, parent), Behind(mode, name, children);
      BehindMerged(mode, name, children);
      MergedElements(children);
      MergedResponse(children, mode);
      MergedInterrupted(children, name, inner);
      MergedDecodable(children, name, inner);
      MergedInterrupted(rest, parent, behind);
      MergedItems(rest, behind);
  }

  lemma {:induction false} MergedItems(content: Content, mode: Option<Capture>)
    ensures ItemsIn(Merged(content), mode) == ItemsIn(content, mode)
    decreases content, 0
  {
    match content
    case Done =>
    case Piece(_, _, rest) => MergedItems(rest, mode);
    case Closed(_, rest) => MergedItems(rest, mode);
    case Misc(rest) => MergedItems(rest, mode);
    case Element(name, children, rest) =>
      BehindMerged(mode, name, children);
      MergedResponse(children, mode);
      MergedItems(children, mode);
      MergedItems(rest, Behind(mode, name, children));
  }

  /** Documents that differ only in how their text is cut are read alike. */
  lemma CuttingIsInvisible(a: Content, b: Content)
    requires Merged(a) == Merged(b)
    ensures ReadItems(Events(a)) == ReadItems(Events(b))
  {
    MergedItems(a, None);
    MergedItems(b, None);
    ReaderExtractsTree(a);
    ReaderExtractsTree(b);
  }
}
