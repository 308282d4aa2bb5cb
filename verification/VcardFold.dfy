/** Line folding of vCards (RFC 6350 section 3.2): `fold_vcard_line` counts UTF-8 bytes and backs
    up to a character boundary; `unfold_vcard_lines` joins continuation lines again.
 */
module VcardFold {
  import opened Text

  const CRLF: string := "\r\n"

  /** How many characters the first `i` bytes of `s` hold. */
  function CharsBefore(s: string, i: nat): (k: nat)
    requires IsCharBoundary(s, i)
    ensures k <= |s| && ByteLen(s[..k]) == i
  {
    if i == 0 then 0 else
      var k := CharsBefore(s[1..], i - Utf8Width(s[0]));
      assert s[..k + 1][1..] == s[1..][..k];
      k + 1
  }

  /** The longest prefix of `s` that fits into `max` bytes, in characters. */
  function FittingPrefix(s: string, max: nat): (k: nat)
    ensures k <= |s| && ByteLen(s[..k]) <= max
    ensures max >= 4 && s != [] ==> k > 0
    ensures k < |s| ==> ByteLen(s[..k]) + Utf8Width(s[k]) > max
  {
    if s == [] || Utf8Width(s[0]) > max then 0 else
      var k := FittingPrefix(s[1..], max - Utf8Width(s[0]));
      assert s[..k + 1][1..] == s[1..][..k];
      k + 1
  }

  lemma FittingPrefixUnroll(s: string, max: nat)
    requires s != [] && Utf8Width(s[0]) <= max
    ensures FittingPrefix(s, max) == 1 + FittingPrefix(s[1..], max - Utf8Width(s[0]))
    ensures ByteLen(s[..FittingPrefix(s, max)]) ==
            Utf8Width(s[0]) + ByteLen(s[1..][..FittingPrefix(s[1..], max - Utf8Width(s[0]))])
  {
    var k := FittingPrefix(s, max);
    assert s[..k][1..] == s[1..][..k - 1];
  }

  lemma BoundaryOneFurther(s: string, i: nat)
    requires s != [] && IsCharBoundary(s[1..], i)
    ensures IsCharBoundary(s, Utf8Width(s[0]) + i)
    ensures CharsBefore(s, Utf8Width(s[0]) + i) == 1 + CharsBefore(s[1..], i)
  {
  }

  lemma {:induction false} FittingPrefixIsBoundary(s: string, max: nat)
    ensures IsCharBoundary(s, ByteLen(s[..FittingPrefix(s, max)]))
    ensures CharsBefore(s, ByteLen(s[..FittingPrefix(s, max)])) == FittingPrefix(s, max)
  {
    if FittingPrefix(s, max) != 0 {
      var w := Utf8Width(s[0]);
      FittingPrefixUnroll(s, max);
      FittingPrefixIsBoundary(s[1..], max - w);
      BoundaryOneFurther(s, ByteLen(s[1..][..FittingPrefix(s[1..], max - w)]));
    }
  }

  /** The pieces a line is cut into: the longest fitting prefix, then pieces of at most 74 bytes. */
  function Chunks(s: string, max: nat): (chunks: seq<string>)
    requires max >= 4
    ensures s != [] ==> chunks != []
    decreases |s|
  {
    if s == [] then [] else
      var k := FittingPrefix(s, max);
      [s[..k]] + Chunks(s[k..], 74)
  }

  /** The continuation part of a folded line. */
  function Continued(chunks: seq<string>): string {
    if chunks == [] then [] else CRLF + " " + chunks[0] + Continued(chunks[1..])
  }

  /** The text of one folded line, without its final line break. */
  function Folded(line: string): string {
    if ByteLen(line) <= 75 then line
    else var chunks := Chunks(line, 75); chunks[0] + Continued(chunks[1..])
  }

  lemma PrefixLength(s: string, k: nat)
    requires k <= |s|
    ensures ByteLen(s[..k]) <= ByteLen(s)
  {
    assert s == s[..k] + s[k..];
    ByteLenConcat(s[..k], s[k..]);
  }

  lemma ShorterPrefix(s: string, a: nat, b: nat)
    requires a <= b <= |s|
    ensures ByteLen(s[..a]) <= ByteLen(s[..b])
  {
    assert s[..b][..a] == s[..a];
    PrefixLength(s[..b], a);
  }

  /** No boundary within the limit lies behind the longest fitting prefix. */
  lemma BoundaryBelowFittingPrefix(s: string, i: nat, max: nat)
    requires IsCharBoundary(s, i) && i <= max
    ensures CharsBefore(s, i) <= FittingPrefix(s, max)
  {
    var c, k := CharsBefore(s, i), FittingPrefix(s, max);
    if k < c {
      OneMoreChar(s, k);
      ShorterPrefix(s, k + 1, c);
    }
  }

  lemma OneMoreChar(s: string, k: nat)
    requires k < |s|
    ensures ByteLen(s[..k + 1]) == ByteLen(s[..k]) + Utf8Width(s[k])
  {
    assert s[..k + 1] == s[..k] + [s[k]];
    ByteLenConcat(s[..k], [s[k]]);
    assert ByteLen([s[k]]) == Utf8Width(s[k]) + ByteLen([s[k]][1..]);
  }

  /** The byte search of the source stops exactly at the longest fitting prefix. */
  lemma SearchStopsAtFittingPrefix(s: string, split: nat, max: nat)
    requires IsCharBoundary(s, split)
    requires ByteLen(s[..FittingPrefix(s, max)]) <= split <= max
    ensures CharsBefore(s, split) == FittingPrefix(s, max)
  {
    BoundaryBelowFittingPrefix(s, split, max);
    ShorterPrefix(s, CharsBefore(s, split), FittingPrefix(s, max));
    FittingPrefixIsBoundary(s, max);
  }

  /** What the folding loop still has to write when `s` remains. */
  function Pending(s: string, first: bool): string {
    if s == [] then []
    else if first then var chunks := Chunks(s, 75); chunks[0] + Continued(chunks[1..])
    else Continued(Chunks(s, 74))
  }

  function Limit(first: bool): nat {
    if first then 75 else 74
  }

  lemma PendingStep(s: string, first: bool)
    requires s != []
    ensures var k := FittingPrefix(s, Limit(first));
      Pending(s, first) == (if first then "" else "\r\n ") + s[..k] + Pending(s[k..], false)
  {
    var k := FittingPrefix(s, Limit(first));
    var chunks := Chunks(s, Limit(first));
    assert chunks[0] == s[..k] && chunks[1..] == Chunks(s[k..], 74);
    assert Continued(chunks[1..]) == Pending(s[k..], false);
    assert "" + s[..k] == s[..k];
    assert CRLF + " " == "\r\n ";
  }

  lemma WriteChunk(output: string, s: string, first: bool)
    requires s != []
    ensures var k := FittingPrefix(s, Limit(first));
      (if first then output else output + "\r\n ") + s[..k] + Pending(s[k..], false) == output + Pending(s, first)
  {
    var k := FittingPrefix(s, Limit(first));
    PendingStep(s, first);
    AppendInTurn(output, if first then "" else "\r\n ", s[..k], Pending(s[k..], false));
    assert output + "" == output;
  }

  lemma AppendInTurn(a: string, b: string, c: string, d: string)
    ensures a + (b + c + d) == a + b + c + d
  {
  }

  method FoldLine(line: string) returns (output: string)
    ensures output == Folded(line)
  {
    if ByteLen(line) <= 75 {
      return line;
    }
    output := "";
    var remaining := line;
    var first := true;
    assert output + Pending(remaining, first) == Folded(line);
    while remaining != []
      invariant output + Pending(remaining, first) == Folded(line)
      decreases |remaining|
    {
      var max := if first then 75 else 74;
      var split := if ByteLen(remaining) < max then ByteLen(remaining) else max;
      ghost var k := FittingPrefix(remaining, max);
      PrefixLength(remaining, k);
      FittingPrefixIsBoundary(remaining, max);
      while !IsCharBoundary(remaining, split)
        invariant ByteLen(remaining[..k]) <= split <= max
        decreases split
      {
        split := split - 1;
      }
      SearchStopsAtFittingPrefix(remaining, split, max);
      var chars := CharsBefore(remaining, split);
      WriteChunk(output, remaining, first);
      if !first {
        output := output + "\r\n ";
      }
      output := output + remaining[..chars];
      remaining := remaining[chars..];
      first := false;
    }
    assert Pending(remaining, first) == [];
  }

  // ---- What folding guarantees

  lemma {:induction false} ChunksCover(s: string, max: nat)
    requires max >= 4
    ensures Concat(Chunks(s, max)) == s
    decreases |s|
  {
    if s != [] {
      var k := FittingPrefix(s, max);
      ChunksCover(s[k..], 74);
      assert s == s[..k] + s[k..];
    }
  }

  lemma {:induction false} ChunksFit(s: string, max: nat)
    requires max >= 4
    ensures forall i :: 0 <= i < |Chunks(s, max)| ==> Chunks(s, max)[i] != []
    ensures forall i :: 0 <= i < |Chunks(s, max)| ==>
      ByteLen(Chunks(s, max)[i]) <= if i == 0 then max else 74
    decreases |s|
  {
    if s != [] {
      var k := FittingPrefix(s, max);
      ChunksFit(s[k..], 74);
    }
  }

  /** Every piece but the last is nearly full, so a text of `n` bytes needs few pieces. */
  lemma {:induction false} ChunkCount(s: string, max: nat)
    requires 74 <= max && s != []
    ensures |Chunks(s, max)| > 1 ==> ByteLen(s) >= max - 3 + 71 * (|Chunks(s, max)| - 2) + 1
    decreases |s|
  {
    var k := FittingPrefix(s, max);
    if k < |s| {
      assert s == s[..k] + s[k..];
      ByteLenConcat(s[..k], s[k..]);
      ChunkCount(s[k..], 74);
    }
  }

  lemma {:induction false} ContinuedLength(chunks: seq<string>)
    ensures ByteLen(Continued(chunks)) == 3 * |chunks| + ByteLen(Concat(chunks))
  {
    if chunks != [] {
      ContinuedLength(chunks[1..]);
      ByteLenConcat(CRLF + " " + chunks[0], Continued(chunks[1..]));
      ByteLenConcat(CRLF + " ", chunks[0]);
      assert ByteLen(CRLF + " ") == 3 by {
        assert CRLF + " " == ['\r'] + (['\n'] + [' ']);
        ByteLenConcat(['\r'], ['\n'] + [' ']);
        ByteLenConcat(['\n'], [' ']);
      }
      ByteLenConcat(chunks[0], Concat(chunks[1..]));
    }
  }

  /** The physical lines of a folded line: the first piece, then each piece behind one space. */
  function PhysicalLines(line: string): (raws: seq<string>)
    ensures |raws| >= 1
  {
    if ByteLen(line) <= 75 then [line]
    else var chunks := Chunks(line, 75); [chunks[0]] + Indented(chunks[1..])
  }

  function Indented(chunks: seq<string>): (raws: seq<string>)
    ensures |raws| == |chunks|
    ensures forall i :: 0 <= i < |raws| ==> raws[i] == " " + chunks[i]
  {
    seq(|chunks|, i requires 0 <= i < |chunks| => " " + chunks[i])
  }

  /** Ends every physical line with `lineBreak`. */
  function Terminate(raws: seq<string>, lineBreak: string): string {
    if raws == [] then [] else raws[0] + lineBreak + Terminate(raws[1..], lineBreak)
  }

  lemma {:induction false} TerminateConcat(a: seq<string>, b: seq<string>, lineBreak: string)
    ensures Terminate(a + b, lineBreak) == Terminate(a, lineBreak) + Terminate(b, lineBreak)
  {
    if a == [] {
      assert a + b == b;
    } else {
      assert (a + b)[1..] == a[1..] + b;
      TerminateConcat(a[1..], b, lineBreak);
    }
  }

  lemma {:induction false} ContinuedIsTerminated(head: string, chunks: seq<string>)
    ensures head + Continued(chunks) + CRLF == Terminate([head] + Indented(chunks), CRLF)
    decreases |chunks|
  {
    var raws := [head] + Indented(chunks);
    assert raws[1..] == Indented(chunks);
    if chunks == [] {
      assert Terminate(raws[1..], CRLF) == [];
    } else {
      assert raws[1..] == [" " + chunks[0]] + Indented(chunks[1..]);
      ContinuedIsTerminated(" " + chunks[0], chunks[1..]);
      calc {
        head + Continued(chunks) + CRLF;
        head + (CRLF + " " + chunks[0] + Continued(chunks[1..])) + CRLF;
        head + CRLF + (" " + chunks[0] + Continued(chunks[1..]) + CRLF);
      }
    }
  }

  /** Folding emits exactly the physical lines, each at most 75 octets, and loses no character. */
  lemma FoldedLinesFit(line: string)
    ensures Folded(line) + CRLF == Terminate(PhysicalLines(line), CRLF)
    ensures forall raw | raw in PhysicalLines(line) :: ByteLen(raw) <= 75
    ensures var raws := PhysicalLines(line);
      line == raws[0] + Concat(seq(|raws| - 1, i requires 0 <= i < |raws| - 1 => raws[i + 1][1..]))
  {
    var raws := PhysicalLines(line);
    var rest := seq(|raws| - 1, i requires 0 <= i < |raws| - 1 => raws[i + 1][1..]);
    if ByteLen(line) <= 75 {
      assert Terminate(raws, CRLF) == line + CRLF + Terminate(raws[1..], CRLF);
      assert rest == [];
    } else {
      var chunks := Chunks(line, 75);
      ContinuedIsTerminated(chunks[0], chunks[1..]);
      ChunksFit(line, 75);
      ChunksCover(line, 75);
      forall i | 1 <= i < |raws| ensures ByteLen(raws[i]) <= 75 {
        assert raws[i] == [' '] + chunks[i];
        ByteLenConcat([' '], chunks[i]);
      }
      assert rest == chunks[1..];
    }
  }

  lemma FoldedLength(line: string)
    requires ByteLen(line) > 75
    ensures ByteLen(Folded(line)) == ByteLen(line) + 3 * (|Chunks(line, 75)| - 1)
  {
    var chunks := Chunks(line, 75);
    ChunksCover(line, 75);
    assert line == chunks[0] + Concat(chunks[1..]);
    ContinuedLength(chunks[1..]);
    ByteLenConcat(chunks[0], Continued(chunks[1..]));
    ByteLenConcat(chunks[0], Concat(chunks[1..]));
  }

  lemma GrowthBound(n: nat, extra: nat)
    requires n > 75
    requires extra > 0 ==> n >= 75 - 3 + 71 * (extra - 1) + 1
    ensures 3 * extra <= 3 * (1 + (n - 73) / 71)
  {
  }

  /** A line of more than 75 bytes grows by three bytes for each extra physical line. */
  lemma FoldingGrowth(line: string)
    requires ByteLen(line) > 75
    ensures ByteLen(Folded(line)) == ByteLen(line) + 3 * (|PhysicalLines(line)| - 1)
    ensures ByteLen(Folded(line)) - ByteLen(line) <= 3 * (1 + (ByteLen(line) - 73) / 71)
  {
    FoldedLength(line);
    ChunkCount(line, 75);
    GrowthBound(ByteLen(line), |Chunks(line, 75)| - 1);
  }

  // ---- Unfolding

  /** `replace("\r\n", "\n")`. */
  function NormalizeBreaks(s: string): string {
    if s == [] then []
    else if |s| >= 2 && s[0] == '\r' && s[1] == '\n' then ['\n'] + NormalizeBreaks(s[2..])
    else [s[0]] + NormalizeBreaks(s[1..])
  }

  /** `trim_end_matches('\r')`. */
  function TrimEndCr(s: string): string {
    if s != [] && s[|s| - 1] == '\r' then TrimEndCr(s[..|s| - 1]) else s
  }

  predicate StartsBlank(s: string) {
    s != [] && (s[0] == ' ' || s[0] == '\t')
  }

  /** Joins raw lines onto the logical lines found so far; a leading continuation is dropped. */
  function UnfoldFrom(lines: seq<string>, raws: seq<string>): seq<string>
    decreases |raws|
  {
    if raws == [] then lines
    else if !StartsBlank(raws[0]) then UnfoldFrom(lines + [TrimEndCr(raws[0])], raws[1..])
    else if lines == [] then UnfoldFrom(lines, raws[1..])
    else UnfoldFrom(lines[..|lines| - 1] + [lines[|lines| - 1] + raws[0][1..]], raws[1..])
  }

  function Unfolded(vcard: string): seq<string> {
    UnfoldFrom([], Split(NormalizeBreaks(vcard), '\n'))
  }

  method UnfoldLines(vcard: string) returns (lines: seq<string>)
    ensures lines == Unfolded(vcard)
  {
    lines := [];
    var raws := Split(NormalizeBreaks(vcard), '\n');
    for i := 0 to |raws|
      invariant UnfoldFrom(lines, raws[i..]) == Unfolded(vcard)
    {
      var raw := raws[i];
      assert raws[i..][1..] == raws[i + 1..];
      if StartsBlank(raw) {
        if lines != [] {
          var joined := lines[|lines| - 1] + raw[1..];
          assert lines[|lines| - 1 := joined] == lines[..|lines| - 1] + [joined];
          lines := lines[|lines| - 1 := joined];
        }
      } else {
        lines := lines + [TrimEndCr(raw)];
      }
    }
  }

  predicate HasNoBreaks(s: string) {
    '\r' !in s && '\n' !in s
  }

  /** A line that can be folded and unfolded: no line break in it, no blank in front. */
  predicate Foldable(line: string) {
    HasNoBreaks(line) && !StartsBlank(line)
  }

  /** All lines folded and ended by CRLF, as `build_vcard` joins them. */
  function FoldAll(lines: seq<string>): string {
    if lines == [] then [] else Folded(lines[0]) + CRLF + FoldAll(lines[1..])
  }

  lemma {:induction false} NormalizeSeparated(piece: string, rest: string)
    requires '\r' !in piece
    ensures NormalizeBreaks(piece + CRLF + rest) == piece + ['\n'] + NormalizeBreaks(rest)
  {
    var s := piece + CRLF + rest;
    if piece == [] {
      assert s[2..] == rest;
    } else {
      assert s[1..] == piece[1..] + CRLF + rest;
      NormalizeSeparated(piece[1..], rest);
    }
  }

  lemma {:induction false} SplitTerminated(raws: seq<string>)
    requires forall raw | raw in raws :: HasNoBreaks(raw)
    ensures Split(NormalizeBreaks(Terminate(raws, CRLF)), '\n') == raws + [""]
  {
    if raws != [] {
      var rest := Terminate(raws[1..], CRLF);
      assert HasNoBreaks(raws[0]);
      NormalizeSeparated(raws[0], rest);
      SplitTerminated(raws[1..]);
      SplitSeparated(raws[0], '\n', NormalizeBreaks(rest));
    }
  }

  function AllPhysicalLines(lines: seq<string>): seq<string> {
    if lines == [] then [] else PhysicalLines(lines[0]) + AllPhysicalLines(lines[1..])
  }

  lemma {:induction false} ConcatMember(pieces: seq<string>, i: nat, c: char)
    requires i < |pieces| && c in pieces[i]
    ensures c in Concat(pieces)
  {
    if i > 0 {
      ConcatMember(pieces[1..], i - 1, c);
    }
  }

  lemma PieceHasNoBreaks(pieces: seq<string>, i: nat)
    requires i < |pieces| && HasNoBreaks(Concat(pieces))
    ensures HasNoBreaks(pieces[i])
  {
    if '\r' in pieces[i] { ConcatMember(pieces, i, '\r'); }
    if '\n' in pieces[i] { ConcatMember(pieces, i, '\n'); }
  }

  lemma PhysicalLinesHaveNoBreaks(line: string)
    requires HasNoBreaks(line)
    ensures forall raw | raw in PhysicalLines(line) :: HasNoBreaks(raw)
  {
    if ByteLen(line) > 75 {
      var chunks, raws := Chunks(line, 75), PhysicalLines(line);
      ChunksCover(line, 75);
      forall i | 0 <= i < |raws| ensures HasNoBreaks(raws[i]) {
        PieceHasNoBreaks(chunks, i);
        assert raws[i] == if i == 0 then chunks[0] else " " + chunks[i];
      }
    }
  }

  lemma {:induction false} FoldAllIsTerminated(lines: seq<string>)
    requires forall line | line in lines :: HasNoBreaks(line)
    ensures FoldAll(lines) == Terminate(AllPhysicalLines(lines), CRLF)
    ensures forall raw | raw in AllPhysicalLines(lines) :: HasNoBreaks(raw) && ByteLen(raw) <= 75
  {
    if lines != [] {
      FoldedLinesFit(lines[0]);
      PhysicalLinesHaveNoBreaks(lines[0]);
      FoldAllIsTerminated(lines[1..]);
      TerminateConcat(PhysicalLines(lines[0]), AllPhysicalLines(lines[1..]), CRLF);
    }
  }

  lemma {:induction false} UnfoldContinuation(lines: seq<string>, line: string, chunks: seq<string>, rest: seq<string>)
    ensures UnfoldFrom(lines + [line], Indented(chunks) + rest) ==
            UnfoldFrom(lines + [line + Concat(chunks)], rest)
    decreases |chunks|
  {
    var raws := Indented(chunks) + rest;
    if chunks == [] {
      assert raws == rest;
      assert line + Concat(chunks) == line;
    } else {
      assert raws[1..] == Indented(chunks[1..]) + rest;
      assert raws[0][1..] == chunks[0];
      assert (lines + [line])[..|lines|] == lines;
      UnfoldContinuation(lines, line + chunks[0], chunks[1..], rest);
      assert line + chunks[0] + Concat(chunks[1..]) == line + Concat(chunks);
    }
  }

  lemma TrimEndCrIdentity(s: string)
    requires '\r' !in s
    ensures TrimEndCr(s) == s
  {
  }

  lemma UnfoldFirst(lines: seq<string>, raw: string, rest: seq<string>)
    requires Foldable(raw)
    ensures UnfoldFrom(lines, [raw] + rest) == UnfoldFrom(lines + [raw], rest)
  {
    TrimEndCrIdentity(raw);
    assert ([raw] + rest)[1..] == rest;
  }

  lemma FirstChunkIsFoldable(line: string)
    requires Foldable(line) && line != []
    ensures Foldable(Chunks(line, 75)[0])
  {
    var chunks := Chunks(line, 75);
    var k := FittingPrefix(line, 75);
    assert chunks[0] == line[..k];
    assert k > 0 && chunks[0][0] == line[0];
  }

  lemma UnfoldOneLine(lines: seq<string>, line: string, rest: seq<string>)
    requires Foldable(line)
    ensures UnfoldFrom(lines, PhysicalLines(line) + rest) == UnfoldFrom(lines + [line], rest)
  {
    if ByteLen(line) <= 75 {
      UnfoldFirst(lines, line, rest);
    } else {
      var chunks := Chunks(line, 75);
      FirstChunkIsFoldable(line);
      UnfoldFirst(lines, chunks[0], Indented(chunks[1..]) + rest);
      UnfoldContinuation(lines, chunks[0], chunks[1..], rest);
      ChunksCover(line, 75);
      assert PhysicalLines(line) + rest == [chunks[0]] + (Indented(chunks[1..]) + rest);
    }
  }

  lemma UnfoldFinalLine(lines: seq<string>)
    ensures UnfoldFrom(lines, [""]) == lines + [""]
  {
    UnfoldFirst(lines, "", []);
    assert [""] + [] == [""];
  }

  lemma {:induction false} UnfoldAllLines(lines: seq<string>, more: seq<string>)
    requires forall i :: 0 <= i < |more| ==> Foldable(more[i])
    ensures UnfoldFrom(lines, AllPhysicalLines(more) + [""]) == lines + (more + [""])
    decreases |more|
  {
    if more == [] {
      UnfoldFinalLine(lines);
      assert AllPhysicalLines(more) + [""] == [""];
      assert more + [""] == [""];
    } else {
      var first, rest := more[0], AllPhysicalLines(more[1..]) + [""];
      calc {
        UnfoldFrom(lines, AllPhysicalLines(more) + [""]);
        { assert AllPhysicalLines(more) + [""] == PhysicalLines(first) + rest; }
        UnfoldFrom(lines, PhysicalLines(first) + rest);
        { UnfoldOneLine(lines, first, rest); }
        UnfoldFrom(lines + [first], rest);
        { UnfoldAllLines(lines + [first], more[1..]); }
        lines + [first] + (more[1..] + [""]);
        { assert [first] + (more[1..] + [""]) == more + [""]; }
        lines + (more + [""]);
      }
    }
  }

  /** Unfolding the folded lines gives them all back, plus the empty line behind the last CRLF. */
  lemma UnfoldInvertsFold(lines: seq<string>)
    requires forall line | line in lines :: Foldable(line)
    ensures Unfolded(FoldAll(lines)) == lines + [""]
  {
    FoldAllIsTerminated(lines);
    SplitTerminated(AllPhysicalLines(lines));
    UnfoldAllLines([], lines);
    assert [] + (lines + [""]) == lines + [""];
  }
}
