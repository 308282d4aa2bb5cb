/** Unfolding of lines that any writer folded: at any place, with a space or a tab, with CRLF or a bare
    line feed, and with stray carriage returns at the end of a line.
 */
module VcardUnfold {
  import opened Text
  import opened VcardFold

  /** A further physical line of a folded line. */
  datatype Continuation = Continuation(blank: char, text: string, lineBreak: string)

  datatype FoldedLine = FoldedLine(first: string, count: nat, lineBreak: string, more: seq<Continuation>)

  predicate IsBreak(lineBreak: string) {
    lineBreak == "\r\n" || lineBreak == "\n"
  }

  predicate ValidContinuation(c: Continuation) {
    (c.blank == ' ' || c.blank == '\t') && HasNoBreaks(c.text) && IsBreak(c.lineBreak)
  }

  predicate ValidLine(line: FoldedLine) {
    && HasNoBreaks(line.first) && !StartsBlank(line.first) && IsBreak(line.lineBreak)
    && AllContinuations(line.more)
  }

  predicate AllContinuations(more: seq<Continuation>) {
    forall i :: 0 <= i < |more| ==> ValidContinuation(more[i])
  }

  predicate AllFolded(lines: seq<FoldedLine>) {
    forall i :: 0 <= i < |lines| ==> ValidLine(lines[i])
  }

  function Returns(n: nat): (s: string)
    ensures |s| == n && forall i :: 0 <= i < n ==> s[i] == '\r'
  {
    seq(n, _ => '\r')
  }

  function ContinuationText(more: seq<Continuation>): string {
    if more == [] then []
    else [more[0].blank] + more[0].text + more[0].lineBreak + ContinuationText(more[1..])
  }

  /** The text of folded lines as it stands in a card. */
  function FoldedText(lines: seq<FoldedLine>): string {
    if lines == [] then []
    else lines[0].first + Returns(lines[0].count) + lines[0].lineBreak + ContinuationText(lines[0].more)
         + FoldedText(lines[1..])
  }

  function Rejoined(more: seq<Continuation>): string {
    if more == [] then [] else more[0].text + Rejoined(more[1..])
  }

  /** What a folded line says. */
  function Logical(line: FoldedLine): string {
    line.first + Rejoined(line.more)
  }

  function LogicalLines(lines: seq<FoldedLine>): seq<string> {
    if lines == [] then [] else [Logical(lines[0])] + LogicalLines(lines[1..])
  }

  // ---- The raw lines between line feeds

  /** A return right before a bare line feed makes it a CRLF, and is gone with it. */
  function ReturnsLeft(count: nat, lineBreak: string): nat {
    if lineBreak == "\n" && count > 0 then count - 1 else count
  }

  lemma NormalizeBreak(lineBreak: string, rest: string)
    requires IsBreak(lineBreak)
    ensures NormalizeBreaks(lineBreak + rest) == ['\n'] + NormalizeBreaks(rest)
  {
    var s := lineBreak + rest;
    assert s[|lineBreak|..] == rest;
  }

  lemma ReturnStays(tail: string)
    requires tail != [] && tail[0] == '\r'
    ensures NormalizeBreaks(['\r'] + tail) == ['\r'] + NormalizeBreaks(tail)
  {
    assert (['\r'] + tail)[1..] == tail;
  }

  lemma OneMoreReturn(count: nat)
    ensures Returns(count + 1) == ['\r'] + Returns(count)
  {
  }

  /** Returns in front of a CRLF stay. */
  lemma {:induction false} ReturnsBeforeCrlf(count: nat, rest: string)
    ensures NormalizeBreaks(Returns(count) + ("\r\n" + rest)) == Returns(count) + NormalizeBreaks("\r\n" + rest)
  {
    var tail := "\r\n" + rest;
    if count == 0 {
      assert Returns(0) + tail == tail;
    } else {
      var s := Returns(count - 1) + tail;
      OneMoreReturn(count - 1);
      assert Returns(count) + tail == ['\r'] + s;
      ReturnStays(s);
      ReturnsBeforeCrlf(count - 1, rest);
      Prepend(['\r'], Returns(count - 1), NormalizeBreaks(tail));
    }
  }

  lemma ReturnsMeetFeed(count: nat, rest: string)
    requires count > 0
    ensures Returns(count) + ("\n" + rest) == Returns(count - 1) + ("\r\n" + rest)
  {
  }

  lemma NormalizeReturns(count: nat, lineBreak: string, rest: string)
    requires IsBreak(lineBreak)
    ensures NormalizeBreaks(Returns(count) + (lineBreak + rest)) ==
            Returns(ReturnsLeft(count, lineBreak)) + (['\n'] + NormalizeBreaks(rest))
  {
    NormalizeBreak(lineBreak, rest);
    NormalizeBreak("\r\n", rest);
    if lineBreak == "\r\n" {
      ReturnsBeforeCrlf(count, rest);
    } else if count > 0 {
      ReturnsMeetFeed(count, rest);
      ReturnsBeforeCrlf(count - 1, rest);
    } else {
      assert Returns(0) + (lineBreak + rest) == lineBreak + rest;
    }
  }

  lemma Prepend(a: string, b: string, c: string)
    ensures a + (b + c) == a + b + c
  {
  }

  lemma {:induction false} NormalizeText(text: string, rest: string)
    requires '\r' !in text
    ensures NormalizeBreaks(text + rest) == text + NormalizeBreaks(rest)
  {
    if text == [] {
      assert text + rest == rest;
    } else {
      assert (text + rest)[1..] == text[1..] + rest;
      NormalizeText(text[1..], rest);
      Prepend([text[0]], text[1..], NormalizeBreaks(rest));
    }
  }

  lemma NormalizeLine(text: string, count: nat, lineBreak: string, rest: string)
    requires HasNoBreaks(text) && IsBreak(lineBreak)
    ensures NormalizeBreaks(text + Returns(count) + lineBreak + rest) ==
            text + Returns(ReturnsLeft(count, lineBreak)) + ['\n'] + NormalizeBreaks(rest)
  {
    var before, after := Returns(count) + (lineBreak + rest), ['\n'] + NormalizeBreaks(rest);
    assert text + Returns(count) + lineBreak + rest == text + before;
    NormalizeText(text, before);
    NormalizeReturns(count, lineBreak, rest);
    Prepend(text, Returns(ReturnsLeft(count, lineBreak)), after);
    Prepend(text + Returns(ReturnsLeft(count, lineBreak)), ['\n'], NormalizeBreaks(rest));
  }

  /** The raw line that a physical line becomes. */
  lemma RawLine(text: string, count: nat, lineBreak: string, rest: string)
    requires HasNoBreaks(text) && IsBreak(lineBreak)
    ensures Split(NormalizeBreaks(text + Returns(count) + lineBreak + rest), '\n') ==
            [text + Returns(ReturnsLeft(count, lineBreak))] + Split(NormalizeBreaks(rest), '\n')
  {
    NormalizeLine(text, count, lineBreak, rest);
    SplitSeparated(text + Returns(ReturnsLeft(count, lineBreak)), '\n', NormalizeBreaks(rest));
  }

  lemma {:induction false} TrimReturns(text: string, count: nat)
    requires HasNoBreaks(text)
    ensures TrimEndCr(text + Returns(count)) == text
  {
    var s := text + Returns(count);
    if count == 0 {
      assert s == text;
    } else {
      assert s[..|s| - 1] == text + Returns(count - 1);
      TrimReturns(text, count - 1);
    }
  }

  // ---- Joining them

  lemma ContinuationIsRaw(c: Continuation, rest: string)
    requires ValidContinuation(c)
    ensures Split(NormalizeBreaks([c.blank] + c.text + c.lineBreak + rest), '\n') ==
            [[c.blank] + c.text] + Split(NormalizeBreaks(rest), '\n')
  {
    var text := [c.blank] + c.text;
    RawLine(text, 0, c.lineBreak, rest);
    assert text + Returns(0) == text;
  }

  /** The raw lines of a text. */
  function RawLines(text: string): seq<string> {
    Split(NormalizeBreaks(text), '\n')
  }

  lemma FirstContinuation(more: seq<Continuation>, rest: string)
    requires more != []
    ensures ContinuationText(more) + rest ==
            [more[0].blank] + more[0].text + more[0].lineBreak + (ContinuationText(more[1..]) + rest)
  {
  }

  lemma {:induction false} JoinContinuations(
    done: seq<string>, line: string, more: seq<Continuation>, rest: string)
    requires AllContinuations(more)
    ensures UnfoldFrom(done + [line], RawLines(ContinuationText(more) + rest)) ==
            UnfoldFrom(done + [line + Rejoined(more)], RawLines(rest))
    decreases |more|
  {
    if more == [] {
      assert ContinuationText(more) + rest == rest;
      assert line + Rejoined(more) == line;
    } else {
      var c, tail := more[0], ContinuationText(more[1..]) + rest;
      assert ValidContinuation(c) && AllContinuations(more[1..]);
      FirstContinuation(more, rest);
      ContinuationIsRaw(c, tail);
      JoinOne(done, line, c, RawLines(tail));
      JoinContinuations(done, line + c.text, more[1..], rest);
      Prepend(line, c.text, Rejoined(more[1..]));
    }
  }

  lemma JoinOne(done: seq<string>, line: string, c: Continuation, raws: seq<string>)
    requires ValidContinuation(c)
    ensures UnfoldFrom(done + [line], [[c.blank] + c.text] + raws) == UnfoldFrom(done + [line + c.text], raws)
  {
    var all := [[c.blank] + c.text] + raws;
    assert all[1..] == raws && all[0][1..] == c.text;
    assert (done + [line])[..|done|] == done;
  }

  lemma StartLine(done: seq<string>, first: string, count: nat, raws: seq<string>)
    requires HasNoBreaks(first) && !StartsBlank(first)
    ensures UnfoldFrom(done, [first + Returns(count)] + raws) == UnfoldFrom(done + [first], raws)
  {
    TrimReturns(first, count);
    var all := [first + Returns(count)] + raws;
    assert all[1..] == raws;
    assert !StartsBlank(first + Returns(count));
  }

  lemma FirstLine(lines: seq<FoldedLine>)
    requires lines != []
    ensures var line := lines[0];
      FoldedText(lines) ==
      line.first + Returns(line.count) + line.lineBreak + (ContinuationText(line.more) + FoldedText(lines[1..]))
  {
  }

  lemma UnfoldLine(done: seq<string>, lines: seq<FoldedLine>)
    requires lines != [] && ValidLine(lines[0])
    ensures UnfoldFrom(done, RawLines(FoldedText(lines))) ==
            UnfoldFrom(done + [Logical(lines[0])], RawLines(FoldedText(lines[1..])))
  {
    var line, rest := lines[0], FoldedText(lines[1..]);
    var tail := ContinuationText(line.more) + rest;
    FirstLine(lines);
    RawLine(line.first, line.count, line.lineBreak, tail);
    StartLine(done, line.first, ReturnsLeft(line.count, line.lineBreak), RawLines(tail));
    JoinContinuations(done, line.first, line.more, rest);
  }

  lemma NothingFolded(done: seq<string>)
    ensures UnfoldFrom(done, RawLines([])) == done + LogicalLines([]) + [""]
  {
    UnfoldFinalLine(done);
    assert RawLines([]) == [""];
    assert done + LogicalLines([]) == done;
  }

  lemma {:induction false} UnfoldEach(done: seq<string>, lines: seq<FoldedLine>)
    requires AllFolded(lines)
    ensures UnfoldFrom(done, RawLines(FoldedText(lines))) == done + LogicalLines(lines) + [""]
    decreases |lines|
  {
    if lines == [] {
      NothingFolded(done);
    } else {
      assert ValidLine(lines[0]) && AllFolded(lines[1..]);
      UnfoldLine(done, lines);
      UnfoldEach(done + [Logical(lines[0])], lines[1..]);
      assert done + [Logical(lines[0])] + LogicalLines(lines[1..]) == done + LogicalLines(lines);
    }
  }

  /** Unfolding gives back what the lines said before they were folded, however they were folded, and the
      empty line behind the last line break. */
  lemma UnfoldInvertsAnyFold(lines: seq<FoldedLine>)
    requires AllFolded(lines)
    ensures Unfolded(FoldedText(lines)) == LogicalLines(lines) + [""]
  {
    UnfoldEach([], lines);
    assert [] + LogicalLines(lines) == LogicalLines(lines);
  }

  lemma OneContinuation(c: Continuation, rest: string)
    ensures ContinuationText([c]) + rest == [c.blank] + c.text + c.lineBreak + rest
  {
    var head := [c.blank] + c.text + c.lineBreak;
    assert [c][1..] == [];
    assert ContinuationText([c]) == head + [] == head;
  }

  lemma DropLeading(c: Continuation, raws: seq<string>)
    requires ValidContinuation(c)
    ensures UnfoldFrom([], [[c.blank] + c.text] + raws) == UnfoldFrom([], raws)
  {
    var all := [[c.blank] + c.text] + raws;
    assert all[1..] == raws;
  }

  /** A continuation in front of the first line continues nothing and is dropped. */
  lemma LeadingContinuationIsDropped(c: Continuation, lines: seq<FoldedLine>)
    requires ValidContinuation(c) && AllFolded(lines)
    ensures Unfolded(ContinuationText([c]) + FoldedText(lines)) == LogicalLines(lines) + [""]
  {
    var rest := FoldedText(lines);
    OneContinuation(c, rest);
    ContinuationIsRaw(c, rest);
    DropLeading(c, RawLines(rest));
    UnfoldInvertsAnyFold(lines);
  }
}
