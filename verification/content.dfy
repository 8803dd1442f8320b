/**
 The content transformer (AdditionalTextContentCreator): from one additional
 text it builds a documentation-comment preview of its first lines and the
 body of a verbatim string literal holding all of it.
 */
module ContentCreator {
  import opened Wrappers
  import opened Strings

  /** The text of a readable asset: its lines without their line breaks, and the whole text. */
  datatype SourceText = SourceText(lines: seq<string>, content: string)

  /** An additional text of the build: its path, and its text, `None` when it cannot be read. */
  datatype AdditionalText = AdditionalText(path: string, text: Option<SourceText>)

  /** The transformed asset: `docCommentCode` is `None` exactly when the text could not be read. */
  datatype AdditionalTextContent = AdditionalTextContent(path: string, docCommentCode: Option<string>, textContent: string)

  /** Lines shown before the preview is cut short. */
  const MaxLinesToShow: nat := 10

  const DocCommentPrefix: string := "/// "

  // ---------------------------------------------------------------------
  // Escaping for documentation comments
  // ---------------------------------------------------------------------

  /** The five chained replacements, ampersand first. */
  function EscapeForDocComments(s: string): string
  {
    var amp := ReplaceChar(s, '&', "&amp;");
    var lt := ReplaceChar(amp, '<', "&lt;");
    var gt := ReplaceChar(lt, '>', "&gt;");
    var quot := ReplaceChar(gt, '"', "&quot;");
    ReplaceChar(quot, '\'', "&apos;")
  }

  /** The XML entity a character stands for in a documentation comment, or the character itself. */
  function DocEntity(c: char): string
  {
    match c
    case '&' => "&amp;"
    case '<' => "&lt;"
    case '>' => "&gt;"
    case '"' => "&quot;"
    case '\'' => "&apos;"
    case _ => [c]
  }

  /** Reference definition: every character escaped on its own, in one pass. */
  function EscapeEachForDocComments(s: string): string
  {
    if s == [] then "" else DocEntity(s[0]) + EscapeEachForDocComments(s[1..])
  }

  predicate IsPrefix(p: string, s: string)
  {
    |p| <= |s| && s[..|p|] == p
  }

  /** No `<`, `>`, `"` or `'`: the only markup character left is the ampersand. */
  predicate NoStrayMarkup(r: string)
  {
    forall i :: 0 <= i < |r| && r[i] != '&' ==> !IsMarkup(r[i])
  }

  /** Every ampersand opens one of the five entities. */
  predicate AmpersandsOpenEntities(r: string)
  {
    forall i :: 0 <= i < |r| && r[i] == '&' ==> EntityAt(r, i)
  }

  /** Position `i` of `s` starts one of the five entities. */
  predicate EntityAt(s: string, i: nat)
    requires i <= |s|
  {
    var rest := s[i..];
    IsPrefix("&amp;", rest) || IsPrefix("&lt;", rest) || IsPrefix("&gt;", rest)
    || IsPrefix("&quot;", rest) || IsPrefix("&apos;", rest)
  }

  /** What an XML reader makes of the escaped text: each entity becomes its character again. */
  function DecodeDocComments(s: string): string
    decreases |s|
  {
    if s == [] then ""
    else if IsPrefix("&amp;", s) then "&" + DecodeDocComments(s[5..])
    else if IsPrefix("&lt;", s) then "<" + DecodeDocComments(s[4..])
    else if IsPrefix("&gt;", s) then ">" + DecodeDocComments(s[4..])
    else if IsPrefix("&quot;", s) then "\"" + DecodeDocComments(s[6..])
    else if IsPrefix("&apos;", s) then "'" + DecodeDocComments(s[6..])
    else [s[0]] + DecodeDocComments(s[1..])
  }

  lemma DocEscapeAppend(a: string, b: string)
    ensures EscapeForDocComments(a + b) == EscapeForDocComments(a) + EscapeForDocComments(b)
  {
    var a1, b1 := ReplaceChar(a, '&', "&amp;"), ReplaceChar(b, '&', "&amp;");
    ReplaceCharAppend(a, b, '&', "&amp;");
    var a2, b2 := ReplaceChar(a1, '<', "&lt;"), ReplaceChar(b1, '<', "&lt;");
    ReplaceCharAppend(a1, b1, '<', "&lt;");
    var a3, b3 := ReplaceChar(a2, '>', "&gt;"), ReplaceChar(b2, '>', "&gt;");
    ReplaceCharAppend(a2, b2, '>', "&gt;");
    var a4, b4 := ReplaceChar(a3, '"', "&quot;"), ReplaceChar(b3, '"', "&quot;");
    ReplaceCharAppend(a3, b3, '"', "&quot;");
    ReplaceCharAppend(a4, b4, '\'', "&apos;");
  }

  /** The five entities, and the characters that need one. */
  predicate IsEntity(e: string)
  {
    e == "&amp;" || e == "&lt;" || e == "&gt;" || e == "&quot;" || e == "&apos;"
  }

  predicate IsMarkup(c: char)
  {
    c == '&' || c == '<' || c == '>' || c == '"' || c == '\''
  }

  /** An entity put in place of a character holds no markup character but its ampersand. */
  lemma EntityIsInert(c: char, rep: string)
    requires IsEntity(rep)
    ensures var x := ReplaceChar([c], c, rep);
      '<' !in x && '>' !in x && '"' !in x && '\'' !in x
  {
    ReplaceCharSingle(c, c, rep);
  }

  lemma DocEscapeAmpersand(c: char)
    requires c == '&'
    ensures EscapeForDocComments([c]) == "&amp;"
  {
    var x := ReplaceChar([c], '&', "&amp;");
    EntityIsInert(c, "&amp;");
    ReplaceCharAbsent(x, '<', "&lt;");
    ReplaceCharAbsent(x, '>', "&gt;");
    ReplaceCharAbsent(x, '"', "&quot;");
    ReplaceCharAbsent(x, '\'', "&apos;");
    assert EscapeForDocComments([c]) == x;
    ReplaceCharSingle(c, '&', "&amp;");
  }

  lemma DocEscapeLessThan(c: char)
    requires c == '<'
    ensures EscapeForDocComments([c]) == "&lt;"
  {
    ReplaceCharAbsent([c], '&', "&amp;");
    var x := ReplaceChar([c], '<', "&lt;");
    EntityIsInert(c, "&lt;");
    ReplaceCharAbsent(x, '>', "&gt;");
    ReplaceCharAbsent(x, '"', "&quot;");
    ReplaceCharAbsent(x, '\'', "&apos;");
    assert EscapeForDocComments([c]) == x;
    ReplaceCharSingle(c, '<', "&lt;");
  }

  lemma DocEscapeGreaterThan(c: char)
    requires c == '>'
    ensures EscapeForDocComments([c]) == "&gt;"
  {
    ReplaceCharAbsent([c], '&', "&amp;");
    ReplaceCharAbsent([c], '<', "&lt;");
    var x := ReplaceChar([c], '>', "&gt;");
    EntityIsInert(c, "&gt;");
    ReplaceCharAbsent(x, '"', "&quot;");
    ReplaceCharAbsent(x, '\'', "&apos;");
    assert EscapeForDocComments([c]) == x;
    ReplaceCharSingle(c, '>', "&gt;");
  }

  lemma DocEscapeQuote(c: char)
    requires c == '"'
    ensures EscapeForDocComments([c]) == "&quot;"
  {
    ReplaceCharAbsent([c], '&', "&amp;");
    ReplaceCharAbsent([c], '<', "&lt;");
    ReplaceCharAbsent([c], '>', "&gt;");
    var x := ReplaceChar([c], '"', "&quot;");
    EntityIsInert(c, "&quot;");
    ReplaceCharAbsent(x, '\'', "&apos;");
    assert EscapeForDocComments([c]) == x;
    ReplaceCharSingle(c, '"', "&quot;");
  }

  lemma DocEscapeApostrophe(c: char)
    requires c == '\''
    ensures EscapeForDocComments([c]) == "&apos;"
  {
    ReplaceCharAbsent([c], '&', "&amp;");
    ReplaceCharAbsent([c], '<', "&lt;");
    ReplaceCharAbsent([c], '>', "&gt;");
    ReplaceCharAbsent([c], '"', "&quot;");
    var x := ReplaceChar([c], '\'', "&apos;");
    EntityIsInert(c, "&apos;");
    assert EscapeForDocComments([c]) == x;
    ReplaceCharSingle(c, '\'', "&apos;");
  }

  lemma DocEscapeMarkup(c: char)
    requires IsMarkup(c)
    ensures EscapeForDocComments([c]) == DocEntity(c)
  {
    if c == '&' {
      DocEscapeAmpersand(c);
    } else if c == '<' {
      DocEscapeLessThan(c);
    } else if c == '>' {
      DocEscapeGreaterThan(c);
    } else if c == '"' {
      DocEscapeQuote(c);
    } else {
      DocEscapeApostrophe(c);
    }
  }

  lemma DocEscapeSingle(c: char)
    ensures EscapeForDocComments([c]) == DocEntity(c)
  {
    if IsMarkup(c) {
      DocEscapeMarkup(c);
    } else {
      EscapeForDocCommentsPlain([c]);
    }
  }

  /** Escaping the ampersand first makes the chain equal to a one-pass escape: no entity
      introduced by a later replacement is escaped again. */
  lemma {:induction false} EscapeForDocCommentsIsOnePass(s: string)
    ensures EscapeForDocComments(s) == EscapeEachForDocComments(s)
  {
    if s == [] {
    } else {
      assert s == [s[0]] + s[1..];
      DocEscapeAppend([s[0]], s[1..]);
      DocEscapeSingle(s[0]);
      EscapeForDocCommentsIsOnePass(s[1..]);
    }
  }

  lemma EntityAtShift(p: string, s: string, i: nat)
    requires i <= |s|
    ensures EntityAt(p + s, |p| + i) == EntityAt(s, i)
  {
    assert (p + s)[|p| + i..] == s[i..];
  }

  lemma EntityAtHead(e: string, s: string)
    requires IsEntity(e)
    ensures EntityAt(e + s, 0)
  {
    assert (e + s)[0..] == e + s;
    assert (e + s)[..|e|] == e;
  }

  /** The entity of a markup character has its only ampersand in front and no other markup. */
  lemma DocEntityShape(c: char)
    ensures IsMarkup(c) ==> IsEntity(DocEntity(c)) && DocEntity(c)[0] == '&'
    ensures !IsMarkup(c) ==> DocEntity(c) == [c]
    ensures forall i :: 0 < i < |DocEntity(c)| ==> !IsMarkup(DocEntity(c)[i])
  {
  }

  lemma {:induction false} EscapeEachHasNoMarkup(s: string)
    ensures NoStrayMarkup(EscapeEachForDocComments(s))
  {
    if s != [] {
      var head := DocEntity(s[0]);
      var tail := EscapeEachForDocComments(s[1..]);
      EscapeEachHasNoMarkup(s[1..]);
      DocEntityShape(s[0]);
      var r := head + tail;
      forall i | 0 <= i < |r| && r[i] != '&'
        ensures !IsMarkup(r[i])
      {
        if i < |head| {
          assert r[i] == head[i];
          if i == 0 && !IsMarkup(s[0]) {
            assert head[0] == s[0];
          }
        } else {
          assert r[i] == tail[i - |head|];
          assert !IsMarkup(tail[i - |head|]);
        }
      }
    }
  }

  /** An ampersand within the entity of a character is the one that opens it. */
  lemma AmpersandInEntity(c: char, tail: string, i: nat)
    requires i < |DocEntity(c)| && (DocEntity(c) + tail)[i] == '&'
    ensures EntityAt(DocEntity(c) + tail, i)
  {
    var head := DocEntity(c);
    DocEntityShape(c);
    assert (head + tail)[i] == head[i];
    EntityAtHead(head, tail);
  }

  lemma {:induction false} EscapeEachAmpersandsOpenEntities(s: string)
    ensures AmpersandsOpenEntities(EscapeEachForDocComments(s))
  {
    if s != [] {
      var head := DocEntity(s[0]);
      var tail := EscapeEachForDocComments(s[1..]);
      var r := head + tail;
      EscapeEachAmpersandsOpenEntities(s[1..]);
      DocEntityShape(s[0]);
      forall i | 0 <= i < |r| && r[i] == '&'
        ensures EntityAt(r, i)
      {
        if i < |head| {
          AmpersandInEntity(s[0], tail, i);
        } else {
          assert tail[i - |head|] == '&';
          assert EntityAt(tail, i - |head|);
          EntityAtShift(head, tail, i - |head|);
        }
      }
    }
  }

  /** The documentation escape produces no `<`, `>`, `"` or `'`, and every `&` in its
      result starts one of the five entities. */
  lemma EscapeForDocCommentsIsWellFormed(s: string)
    ensures var r := EscapeForDocComments(s);
      && '<' !in r && '>' !in r && '"' !in r && '\'' !in r
      && forall i :: 0 <= i < |r| && r[i] == '&' ==> EntityAt(r, i)
  {
    EscapeForDocCommentsIsOnePass(s);
    EscapeEachHasNoMarkup(s);
    EscapeEachAmpersandsOpenEntities(s);
  }

  /** Decoding the escaped text gives back the line. */
  lemma {:induction false} EscapeForDocCommentsRoundTrip(s: string)
    ensures DecodeDocComments(EscapeForDocComments(s)) == s
  {
    EscapeForDocCommentsIsOnePass(s);
    EscapeEachRoundTrip(s);
  }

  /** A prefix shows in the first three characters. */
  lemma PrefixHead(p: string, s: string)
    requires |p| > 2
    ensures IsPrefix(p, s) ==> s[0] == p[0] && s[1] == p[1] && s[2] == p[2]
  {
    if IsPrefix(p, s) {
      assert s[..|p|][0] == s[0];
      assert s[..|p|][1] == s[1];
      assert s[..|p|][2] == s[2];
    }
  }

  lemma DecodeAfterPlain(c: char, tail: string)
    requires c != '&'
    ensures DecodeDocComments([c] + tail) == [c] + DecodeDocComments(tail)
  {
    var r := [c] + tail;
    assert r[0] == c;
    assert r[1..] == tail;
    PrefixHead("&amp;", r);
    PrefixHead("&lt;", r);
    PrefixHead("&gt;", r);
    PrefixHead("&quot;", r);
    PrefixHead("&apos;", r);
  }

  lemma DecodeAfterAmpersand(tail: string)
    ensures DecodeDocComments("&amp;" + tail) == "&" + DecodeDocComments(tail)
  {
    var r := "&amp;" + tail;
    assert r[..5] == "&amp;";
    assert r[5..] == tail;
  }

  lemma DecodeAfterLessThan(tail: string)
    ensures DecodeDocComments("&lt;" + tail) == "<" + DecodeDocComments(tail)
  {
    var r := "&lt;" + tail;
    assert r[..4] == "&lt;";
    assert r[4..] == tail;
    assert r[1] == 'l';
    PrefixHead("&amp;", r);
  }

  lemma DecodeAfterGreaterThan(tail: string)
    ensures DecodeDocComments("&gt;" + tail) == ">" + DecodeDocComments(tail)
  {
    var r := "&gt;" + tail;
    assert r[..4] == "&gt;";
    assert r[4..] == tail;
    assert r[1] == 'g';
    PrefixHead("&amp;", r);
    PrefixHead("&lt;", r);
  }

  lemma DecodeAfterQuote(tail: string)
    ensures DecodeDocComments("&quot;" + tail) == "\"" + DecodeDocComments(tail)
  {
    var r := "&quot;" + tail;
    assert r[..6] == "&quot;";
    assert r[6..] == tail;
    assert r[1] == 'q';
    PrefixHead("&amp;", r);
    PrefixHead("&lt;", r);
    PrefixHead("&gt;", r);
  }

  lemma DecodeAfterApostrophe(tail: string)
    ensures DecodeDocComments("&apos;" + tail) == "'" + DecodeDocComments(tail)
  {
    var r := "&apos;" + tail;
    assert r[..6] == "&apos;";
    assert r[6..] == tail;
    assert r[1] == 'a' && r[2] == 'p';
    PrefixHead("&amp;", r);
    PrefixHead("&lt;", r);
    PrefixHead("&gt;", r);
    PrefixHead("&quot;", r);
  }

  lemma DecodeAfterEntity(c: char, tail: string)
    ensures DecodeDocComments(DocEntity(c) + tail) == [c] + DecodeDocComments(tail)
  {
    if c == '&' {
      DecodeAfterAmpersand(tail);
    } else if c == '<' {
      DecodeAfterLessThan(tail);
    } else if c == '>' {
      DecodeAfterGreaterThan(tail);
    } else if c == '"' {
      DecodeAfterQuote(tail);
    } else if c == '\'' {
      DecodeAfterApostrophe(tail);
    } else {
      DecodeAfterPlain(c, tail);
    }
  }

  lemma {:induction false} EscapeEachRoundTrip(s: string)
    ensures DecodeDocComments(EscapeEachForDocComments(s)) == s
  {
    if s != [] {
      DecodeAfterEntity(s[0], EscapeEachForDocComments(s[1..]));
      EscapeEachRoundTrip(s[1..]);
      assert s == [s[0]] + s[1..];
    }
  }

  /** A line with no markup characters is shown as it is. */
  lemma {:induction false} EscapeForDocCommentsPlain(s: string)
    requires forall i :: 0 <= i < |s| ==> s[i] !in "&<>\"'"
    ensures EscapeForDocComments(s) == s
  {
    ReplaceCharAbsent(s, '&', "&amp;");
    ReplaceCharAbsent(s, '<', "&lt;");
    ReplaceCharAbsent(s, '>', "&gt;");
    ReplaceCharAbsent(s, '"', "&quot;");
    ReplaceCharAbsent(s, '\'', "&apos;");
  }

  // ---------------------------------------------------------------------
  // Escaping for the verbatim string constant
  // ---------------------------------------------------------------------

  /** Every double quote doubled, so the text can sit inside `@"..."`. */
  function EscapeForConstant(s: string): (r: string)
    ensures |r| == |s| + Count(s, '"')
  {
    ReplaceCharLength(s, '"', "\"\"");
    ReplaceChar(s, '"', "\"\"")
  }

  /** How the compiler reads a verbatim string body: `""` stands for one `"`. */
  function CollapseDoubledQuotes(s: string): string
    decreases |s|
  {
    if s == [] then ""
    else if |s| >= 2 && s[0] == '"' && s[1] == '"' then "\"" + CollapseDoubledQuotes(s[2..])
    else [s[0]] + CollapseDoubledQuotes(s[1..])
  }

  /** Every quote in `s` is one half of a `""` pair, so no quote can end the literal early. */
  predicate QuotesPaired(s: string)
    decreases |s|
  {
    if s == [] then true
    else if s[0] == '"' then |s| >= 2 && s[1] == '"' && QuotesPaired(s[2..])
    else QuotesPaired(s[1..])
  }

  /** The constant escape is undone by the compiler's reading of the verbatim string, and
      leaves every quote paired. */
  lemma {:induction false} EscapeForConstantRoundTrip(s: string)
    ensures CollapseDoubledQuotes(EscapeForConstant(s)) == s
    ensures QuotesPaired(EscapeForConstant(s))
  {
    if s != [] {
      var head := if s[0] == '"' then "\"\"" else [s[0]];
      var tail := EscapeForConstant(s[1..]);
      assert EscapeForConstant(s) == head + tail;
      EscapeForConstantRoundTrip(s[1..]);
      if s[0] == '"' {
        assert (head + tail)[2..] == tail;
      } else {
        assert (head + tail)[1..] == tail;
      }
      assert s == [s[0]] + s[1..];
    }
  }

  // ---------------------------------------------------------------------
  // The preview
  // ---------------------------------------------------------------------

  /** One documentation line: a line break, the comment marker and the escaped text. */
  function DocLine(nl: string, line: string): string
  {
    nl + DocCommentPrefix + EscapeForDocComments(line)
  }

  /** The line that stands for the `remaining` lines not shown. */
  function SummaryLine(nl: string, remaining: nat): string
  {
    nl + DocCommentPrefix + "... " + NatToString(remaining, 10) + " more lines"
  }

  /** Reference definition: every line shown, in order. */
  function DocLines(nl: string, lines: seq<string>): string
  {
    if lines == [] then "" else DocLine(nl, lines[0]) + DocLines(nl, lines[1..])
  }

  /** The `foreach` over the lines: `outputLines` lines are already written and `rest` remain.
      Once ten are written and the text has more than eleven lines, a summary replaces the rest. */
  function PreviewLoop(nl: string, rest: seq<string>, lineCount: nat, outputLines: nat): string
    requires outputLines + |rest| == lineCount
    decreases |rest|
  {
    if rest == [] then ""
    else if outputLines >= MaxLinesToShow && lineCount > MaxLinesToShow + 1 then
      SummaryLine(nl, lineCount - outputLines)
    else DocLine(nl, rest[0]) + PreviewLoop(nl, rest[1..], lineCount, outputLines + 1)
  }

  function Preview(nl: string, lines: seq<string>): string
  {
    PreviewLoop(nl, lines, |lines|, 0)
  }

  lemma {:induction false} DocLinesAppend(nl: string, a: seq<string>, b: seq<string>)
    ensures DocLines(nl, a + b) == DocLines(nl, a) + DocLines(nl, b)
  {
    if a == [] {
      assert a + b == b;
    } else {
      assert (a + b)[0] == a[0];
      assert (a + b)[1..] == a[1..] + b;
      DocLinesAppend(nl, a[1..], b);
    }
  }

  lemma {:induction false} PreviewLoopShort(nl: string, rest: seq<string>, lineCount: nat, outputLines: nat)
    requires outputLines + |rest| == lineCount <= MaxLinesToShow + 1
    ensures PreviewLoop(nl, rest, lineCount, outputLines) == DocLines(nl, rest)
    decreases |rest|
  {
    if rest != [] {
      PreviewLoopShort(nl, rest[1..], lineCount, outputLines + 1);
      assert PreviewLoop(nl, rest, lineCount, outputLines)
          == DocLine(nl, rest[0]) + PreviewLoop(nl, rest[1..], lineCount, outputLines + 1);
    }
  }

  /** One turn of the loop before the summary: the next line is shown. */
  lemma PreviewLoopStep(nl: string, rest: seq<string>, lineCount: nat, outputLines: nat)
    requires outputLines + |rest| == lineCount && rest != []
    requires outputLines < MaxLinesToShow
    ensures PreviewLoop(nl, rest, lineCount, outputLines)
         == DocLine(nl, rest[0]) + PreviewLoop(nl, rest[1..], lineCount, outputLines + 1)
  {
  }

  lemma DocLinesCons(nl: string, lines: seq<string>)
    requires lines != []
    ensures DocLines(nl, lines) == DocLine(nl, lines[0]) + DocLines(nl, lines[1..])
  {
  }

  /** `x` is `head` before `y`, `y` is `mid` before `tail`, so `x` is `head + mid` before `tail`. */
  lemma PrefixChain<T>(x: seq<T>, head: seq<T>, y: seq<T>, mid: seq<T>, tail: seq<T>, z: seq<T>)
    requires x == head + y && y == mid + tail && z == head + mid
    ensures x == z + tail
  {
    AppendAssociative(head, mid, tail);
  }

  /** Once ten lines are shown and more than one remains, the loop writes the summary and stops. */
  lemma PreviewLoopAtSummary(nl: string, rest: seq<string>, lineCount: nat, outputLines: nat)
    requires outputLines + |rest| == lineCount && rest != []
    requires outputLines >= MaxLinesToShow && lineCount > MaxLinesToShow + 1
    ensures PreviewLoop(nl, rest, lineCount, outputLines) == SummaryLine(nl, lineCount - outputLines)
  {
  }

  lemma EmptyPrefix<T>(empty: seq<T>, x: seq<T>)
    requires empty == []
    ensures empty + x == x
  {
  }

  lemma {:induction false} PreviewLoopLong(nl: string, lines: seq<string>, outputLines: nat)
    requires |lines| > MaxLinesToShow + 1 && outputLines <= MaxLinesToShow
    ensures PreviewLoop(nl, lines[outputLines..], |lines|, outputLines)
         == DocLines(nl, lines[outputLines..MaxLinesToShow]) + SummaryLine(nl, |lines| - MaxLinesToShow)
    decreases MaxLinesToShow - outputLines
  {
    var rest := lines[outputLines..];
    if outputLines == MaxLinesToShow {
      assert lines[outputLines..MaxLinesToShow] == [];
      PreviewLoopAtSummary(nl, rest, |lines|, outputLines);
      EmptyPrefix(DocLines(nl, lines[outputLines..MaxLinesToShow]), SummaryLine(nl, |lines| - MaxLinesToShow));
    } else {
      var shown := lines[outputLines..MaxLinesToShow];
      var line := DocLine(nl, lines[outputLines]);
      var more := DocLines(nl, lines[outputLines + 1..MaxLinesToShow]);
      var summary := SummaryLine(nl, |lines| - MaxLinesToShow);
      assert rest[1..] == lines[outputLines + 1..];
      PreviewLoopStep(nl, rest, |lines|, outputLines);
      PreviewLoopLong(nl, lines, outputLines + 1);
      assert shown[0] == lines[outputLines] && shown[1..] == lines[outputLines + 1..MaxLinesToShow];
      DocLinesCons(nl, shown);
      PrefixChain(PreviewLoop(nl, rest, |lines|, outputLines), line,
        PreviewLoop(nl, lines[outputLines + 1..], |lines|, outputLines + 1), more, summary, DocLines(nl, shown));
    }
  }

  /** A text of at most eleven lines is shown in full; a longer one shows its first ten lines
      and then a summary counting the rest, which is never fewer than two lines. */
  lemma PreviewTruncation(nl: string, lines: seq<string>)
    ensures |lines| <= MaxLinesToShow + 1 ==> Preview(nl, lines) == DocLines(nl, lines)
    ensures |lines| > MaxLinesToShow + 1 ==>
      && |lines| - MaxLinesToShow >= 2
      && Preview(nl, lines)
         == DocLines(nl, lines[..MaxLinesToShow]) + SummaryLine(nl, |lines| - MaxLinesToShow)
  {
    if |lines| <= MaxLinesToShow + 1 {
      PreviewLoopShort(nl, lines, |lines|, 0);
    } else {
      PreviewLoopLong(nl, lines, 0);
      assert lines[0..] == lines;
      assert lines[0..MaxLinesToShow] == lines[..MaxLinesToShow];
    }
  }

  /** GenerateAdditionalTextContent. */
  function GenerateAdditionalTextContent(nl: string, additionalText: AdditionalText): (r: AdditionalTextContent)
    ensures r.path == additionalText.path
    ensures r.docCommentCode.None? <==> additionalText.text.None?
    ensures additionalText.text.None? ==> r.textContent == ""
    ensures additionalText.text.Some? ==>
      && CollapseDoubledQuotes(r.textContent) == additionalText.text.value.content
      && QuotesPaired(r.textContent)
    ensures additionalText.text.Some? ==>
      var lines := additionalText.text.value.lines;
      && (|lines| <= MaxLinesToShow + 1 ==> r.docCommentCode == Some(DocLines(nl, lines)))
      && (|lines| > MaxLinesToShow + 1 ==>
            r.docCommentCode == Some(DocLines(nl, lines[..MaxLinesToShow]) + SummaryLine(nl, |lines| - MaxLinesToShow)))
  {
    match additionalText.text
    case None => AdditionalTextContent(additionalText.path, None, "")
    case Some(source) =>
      EscapeForConstantRoundTrip(source.content);
      PreviewTruncation(nl, source.lines);
      AdditionalTextContent(additionalText.path, Some(Preview(nl, source.lines)), EscapeForConstant(source.content))
  }
}
