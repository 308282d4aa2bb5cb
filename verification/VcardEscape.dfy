/** Text escaping of vCard values (RFC 6350 section 3.4): the sequential replacements of
    `escape_vcard_text` and the scanner of `unescape_vcard_text`.
 */
module VcardEscape {

  /** `str::replace(char, &str)`. */
  function Replace(s: string, c: char, text: string): string {
    if s == [] then [] else (if s[0] == c then text else [s[0]]) + Replace(s[1..], c, text)
  }

  function EscapeText(value: string): string {
    Replace(
      Replace(
        Replace(
          Replace(
            Replace(value, '\\', "\\\\"),
            '\r', ""),
          '\n', "\\n"),
        ';', "\\;"),
      ',', "\\,")
  }

  /** What one character of the input becomes. */
  function EscapeChar(c: char): string {
    match c
    case '\\' => "\\\\"
    case '\r' => ""
    case '\n' => "\\n"
    case ';' => "\\;"
    case ',' => "\\,"
    case _ => [c]
  }

  /** The single left-to-right pass that the five replacements amount to. */
  function EscapeOnce(s: string): string {
    if s == [] then [] else EscapeChar(s[0]) + EscapeOnce(s[1..])
  }

  function StripCr(s: string): (r: string)
    ensures '\r' !in r
  {
    if s == [] then [] else (if s[0] == '\r' then [] else [s[0]]) + StripCr(s[1..])
  }

  lemma {:induction false} ReplaceConcat(a: string, b: string, c: char, text: string)
    ensures Replace(a + b, c, text) == Replace(a, c, text) + Replace(b, c, text)
  {
    if a == [] {
      assert a + b == b;
    } else {
      assert (a + b)[1..] == a[1..] + b;
      ReplaceConcat(a[1..], b, c, text);
    }
  }

  lemma ReplaceShort(s: string, c: char, text: string)
    requires |s| <= 2
    ensures |s| == 0 ==> Replace(s, c, text) == []
    ensures |s| == 1 ==> Replace(s, c, text) == if s[0] == c then text else s
    ensures |s| == 2 ==> Replace(s, c, text) ==
                         (if s[0] == c then text else [s[0]]) + (if s[1] == c then text else [s[1]])
  {
    if |s| == 2 {
      assert Replace(s, c, text) == (if s[0] == c then text else [s[0]]) + Replace(s[1..], c, text);
      assert s[1..] == [s[1]];
      ReplaceShort(s[1..], c, text);
    }
  }

  lemma EscapeTextConcat(a: string, b: string)
    ensures EscapeText(a + b) == EscapeText(a) + EscapeText(b)
  {
    ReplaceConcat(a, b, '\\', "\\\\");
    var a1, b1 := Replace(a, '\\', "\\\\"), Replace(b, '\\', "\\\\");
    ReplaceConcat(a1, b1, '\r', "");
    var a2, b2 := Replace(a1, '\r', ""), Replace(b1, '\r', "");
    ReplaceConcat(a2, b2, '\n', "\\n");
    var a3, b3 := Replace(a2, '\n', "\\n"), Replace(b2, '\n', "\\n");
    ReplaceConcat(a3, b3, ';', "\\;");
    ReplaceConcat(Replace(a3, ';', "\\;"), Replace(b3, ';', "\\;"), ',', "\\,");
  }

  lemma EscapeTextChar(c: char)
    ensures EscapeText([c]) == EscapeChar(c)
  {
    ReplaceShort([c], '\\', "\\\\");
    var s1 := Replace([c], '\\', "\\\\");
    ReplaceShort(s1, '\r', "");
    var s2 := Replace(s1, '\r', "");
    ReplaceShort(s2, '\n', "\\n");
    var s3 := Replace(s2, '\n', "\\n");
    ReplaceShort(s3, ';', "\\;");
    ReplaceShort(Replace(s3, ';', "\\;"), ',', "\\,");
  }

  /** The five sequential replacements never act on each other's output. */
  lemma {:induction false} EscapeIsOnePass(s: string)
    ensures EscapeText(s) == EscapeOnce(s)
  {
    if s != [] {
      assert s == [s[0]] + s[1..];
      EscapeTextConcat([s[0]], s[1..]);
      EscapeTextChar(s[0]);
      EscapeIsOnePass(s[1..]);
    }
  }

  /** Wherever a character stands: a backslash, `;` and `,` get a backslash in front, a line feed becomes a
      backslash and `n`, a carriage return goes, and every other character stays. */
  lemma EscapeAnywhere(a: string, c: char, b: string)
    ensures EscapeText([]) == []
    ensures EscapeText(a + [c] + b) == EscapeText(a)
            + (if c == '\\' || c == ';' || c == ',' then ['\\', c]
               else if c == '\n' then ['\\', 'n']
               else if c == '\r' then []
               else [c])
            + EscapeText(b)
  {
    EscapeTextConcat(a + [c], b);
    EscapeTextConcat(a, [c]);
    EscapeTextChar(c);
  }

  /** What the scanner of `unescape_vcard_text` computes, character by character. */
  function Unescaped(s: string): string {
    if s == [] then []
    else if s[0] != '\\' then [s[0]] + Unescaped(s[1..])
    else if |s| == 1 then "\\"
    else [if s[1] == 'n' || s[1] == 'N' then '\n' else s[1]] + Unescaped(s[2..])
  }

  /** What one round of the scanner writes from position `next`, and where it goes on. */
  function Round(value: string, next: nat): (r: (string, nat))
    requires next < |value|
    ensures next < r.1 <= |value|
  {
    if value[next] != '\\' then ([value[next]], next + 1)
    else if next + 1 == |value| then ("\\", next + 1)
    else ([if value[next + 1] == 'n' || value[next + 1] == 'N' then '\n' else value[next + 1]], next + 2)
  }

  lemma UnescapedRound(output: string, value: string, next: nat)
    requires next < |value|
    ensures var (text, after) := Round(value, next);
      output + text + Unescaped(value[after..]) == output + Unescaped(value[next..])
  {
    var (text, after) := Round(value, next);
    var rest := value[next..];
    assert rest[1..] == value[next + 1..];
    if next + 1 < |value| {
      assert rest[2..] == value[next + 2..];
    }
    assert Unescaped(rest) == text + Unescaped(value[after..]);
    assert output + (text + Unescaped(value[after..])) == output + text + Unescaped(value[after..]);
  }

  /** The scanner itself: one pass over the characters with a pending escape. */
  method UnescapeText(value: string) returns (output: string)
    ensures output == Unescaped(value)
  {
    output := [];
    var next := 0;
    assert value[next..] == value;
    while next < |value|
      invariant next <= |value|
      invariant output + Unescaped(value[next..]) == Unescaped(value)
    {
      ghost var round := Round(value, next);
      UnescapedRound(output, value, next);
      ghost var was := output;
      var character := value[next];
      next := next + 1;
      if character != '\\' {
        output := output + [character];
      } else if next < |value| {
        output := output + [if value[next] == 'n' || value[next] == 'N' then '\n' else value[next]];
        next := next + 1;
      } else {
        output := output + ['\\'];
      }
      assert output == was + round.0 && next == round.1;
    }
    assert value[next..] == [];
  }

  /** Unescaping an escaped character gives it back; only a carriage return is lost. */
  lemma UnescapeChar(c: char, rest: string)
    ensures Unescaped(EscapeChar(c) + rest) == (if c == '\r' then [] else [c]) + Unescaped(rest)
  {
    var s := EscapeChar(c) + rest;
    if c == '\r' {
      assert s == rest;
    } else if |EscapeChar(c)| == 2 {
      assert s[2..] == rest;
    } else {
      assert s[1..] == rest;
    }
  }

  lemma {:induction false} UnescapeOnceThen(s: string, rest: string)
    ensures Unescaped(EscapeOnce(s) + rest) == StripCr(s) + Unescaped(rest)
  {
    if s == [] {
      assert EscapeOnce(s) + rest == rest;
    } else {
      assert EscapeOnce(s) + rest == EscapeChar(s[0]) + (EscapeOnce(s[1..]) + rest);
      UnescapeChar(s[0], EscapeOnce(s[1..]) + rest);
      UnescapeOnceThen(s[1..], rest);
    }
  }

  /** Unescaping is a left inverse of escaping, except that carriage returns are dropped. */
  lemma UnescapeAfterEscape(s: string)
    ensures Unescaped(EscapeText(s)) == StripCr(s)
  {
    EscapeIsOnePass(s);
    UnescapeOnceThen(s, []);
    assert EscapeOnce(s) + [] == EscapeOnce(s);
  }

  /** No backslash at the end of the text is still waiting for its character. */
  predicate Complete(s: string) {
    s == [] || (if s[0] == '\\' then |s| >= 2 && Complete(s[2..]) else Complete(s[1..]))
  }

  lemma {:induction false} UnescapeInTurn(a: string, b: string)
    requires Complete(a)
    ensures Unescaped(a + b) == Unescaped(a) + Unescaped(b)
  {
    if a == [] {
      assert a + b == b;
    } else if a[0] == '\\' {
      assert (a + b)[2..] == a[2..] + b;
      UnescapeInTurn(a[2..], b);
    } else {
      assert (a + b)[1..] == a[1..] + b;
      UnescapeInTurn(a[1..], b);
    }
  }

  lemma UnescapeEscaped(c: char, b: string)
    ensures Unescaped(['\\', c] + b) == [if c == 'n' || c == 'N' then '\n' else c] + Unescaped(b)
  {
    assert (['\\', c] + b)[2..] == b;
  }

  lemma UnescapePlain(c: char, b: string)
    requires c != '\\'
    ensures Unescaped([c] + b) == [c] + Unescaped(b)
  {
    assert ([c] + b)[1..] == b;
  }

  /** Wherever it stands, an escaped `n` or `N` is a line feed, any other escaped character is itself, a
      character without a backslash is itself, and a backslash at the very end is one. */
  lemma UnescapeAnywhere(a: string, c: char, b: string)
    requires Complete(a)
    ensures Unescaped(a + (['\\', c] + b)) ==
            Unescaped(a) + ([if c == 'n' || c == 'N' then '\n' else c] + Unescaped(b))
    ensures c != '\\' ==> Unescaped(a + ([c] + b)) == Unescaped(a) + ([c] + Unescaped(b))
    ensures Unescaped(a + ['\\']) == Unescaped(a) + ['\\']
  {
    UnescapeInTurn(a, ['\\', c] + b);
    UnescapeEscaped(c, b);
    if c != '\\' {
      UnescapeInTurn(a, [c] + b);
      UnescapePlain(c, b);
    }
    UnescapeInTurn(a, ['\\']);
  }

  /** Every byte of meaning is protected: the text is a sequence of ordinary characters, none of
      them special, and of two-character escapes of a backslash, an `n`, a `;` or a `,`. */
  predicate WellEscaped(s: string) {
    s == [] ||
    (if s[0] == '\\'
     then |s| >= 2 && s[1] in {'\\', 'n', ';', ','} && WellEscaped(s[2..])
     else s[0] !in {'\r', '\n', ';', ','} && WellEscaped(s[1..]))
  }

  lemma {:induction false} EscapeOnceIsWellEscaped(s: string)
    ensures WellEscaped(EscapeOnce(s))
  {
    if s != [] {
      EscapeOnceIsWellEscaped(s[1..]);
      var e, rest := EscapeChar(s[0]), EscapeOnce(s[1..]);
      if |e| == 2 {
        assert (e + rest)[2..] == rest;
      } else if |e| == 1 {
        assert (e + rest)[1..] == rest;
      } else {
        assert e + rest == rest;
      }
    }
  }

  lemma {:induction false} WellEscapedHasNoBreaks(s: string)
    requires WellEscaped(s)
    ensures '\r' !in s && '\n' !in s
  {
    if s != [] {
      if s[0] == '\\' {
        WellEscapedHasNoBreaks(s[2..]);
        assert s == [s[0], s[1]] + s[2..];
      } else {
        WellEscapedHasNoBreaks(s[1..]);
        assert s == [s[0]] + s[1..];
      }
    }
  }

  /** Escaped text never holds a raw line break and every special character in it is escaped. */
  lemma EscapedTextIsSafe(s: string)
    ensures WellEscaped(EscapeText(s))
    ensures '\r' !in EscapeText(s) && '\n' !in EscapeText(s)
  {
    EscapeIsOnePass(s);
    EscapeOnceIsWellEscaped(s);
    WellEscapedHasNoBreaks(EscapeText(s));
  }

  lemma {:induction false} EscapeOnceKeepsAbsence(s: string)
    requires ';' !in s
    ensures ';' !in EscapeOnce(s)
  {
    if s != [] {
      EscapeOnceKeepsAbsence(s[1..]);
    }
  }

  lemma {:induction false} EscapeOnceConcat(a: string, b: string)
    ensures EscapeOnce(a + b) == EscapeOnce(a) + EscapeOnce(b)
  {
    if a == [] {
      assert a + b == b;
    } else {
      assert (a + b)[1..] == a[1..] + b;
      EscapeOnceConcat(a[1..], b);
    }
  }

  lemma {:induction false} StripCrConcat(a: string, b: string)
    ensures StripCr(a + b) == StripCr(a) + StripCr(b)
  {
    if a == [] {
      assert a + b == b;
    } else {
      var head := if a[0] == '\r' then [] else [a[0]];
      StripCrConcat(a[1..], b);
      assert (a + b)[1..] == a[1..] + b;
      assert StripCr(a + b) == head + StripCr(a[1..] + b);
      assert head + (StripCr(a[1..]) + StripCr(b)) == head + StripCr(a[1..]) + StripCr(b);
    }
  }

  lemma {:induction false} StripCrIdentity(s: string)
    requires '\r' !in s
    ensures StripCr(s) == s
  {
    if s != [] {
      StripCrIdentity(s[1..]);
    }
  }

  lemma {:induction false} StripCrMember(s: string, c: char)
    requires c != '\r'
    ensures c in StripCr(s) <==> c in s
  {
    if s != [] {
      StripCrMember(s[1..], c);
      assert s == [s[0]] + s[1..];
    }
  }
}
