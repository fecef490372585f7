/**
 * `parserMarkdownEnSlides` and `traiterSlide`: the markdown is sanitised and
 * cut into segments, and each segment is trimmed and rewritten by the
 * heading, emphasis, code, link and list rules, in that order.
 */
module Parser {
  import opened JsText
  import opened Lines
  import opened Markup
  import opened Sanitize
  import opened Segments
  import opened Headings
  import opened Inline
  import opened Lists
  import opened Packing

  /** The whole-text rules of `traiterSlide`, before the list pass. */
  function Rewrite(slide: string): string {
    Links(Code(Formatting(Headings.Headings(Trim(slide)))))
  }

  /** `traiterSlide(texteSlide)`. */
  function SlideHtml(slide: string): string {
    ListsHtml(Rewrite(slide))
  }

  /** `parserMarkdownEnSlides(markdown)`: one slide per segment of the sanitised text, in order. */
  function ParseSlides(markdown: string): seq<string> {
    Each(Segment(Clean(markdown)), SlideHtml)
  }

  /** Blank markdown yields no slide at all. */
  lemma ParseBlank(markdown: string)
    requires AllSpace(markdown)
    ensures ParseSlides(markdown) == []
  {
    assert NoTagSpan(markdown) by {
      forall i | 0 <= i < |markdown| ensures markdown[i] != '<' {
        assert IsSpace(markdown[i]);
      }
    }
    StripTagsIdentity(markdown);
    NormaliseBlank(markdown);
    BlankIff(markdown);
    assert Clean(markdown) == [];
    SegmentBlank([]);
  }

  /** A rule line holds a `-`, so blank text has none and the normalisation leaves it alone. */
  lemma {:induction false} NormaliseBlank(s: string)
    requires AllSpace(s)
    ensures NormaliseSeparators(s) == s
    decreases |s|
  {
    var i := LineEnd(s);
    var line := s[..i];
    assert !IsRuleLine(line) by {
      if |line| >= 3 { assert IsSpace(s[0]) && line[0] == s[0]; }
    }
    if i < |s| {
      NormaliseBlank(s[i + 1..]);
      assert s == line + [s[i]] + s[i + 1..];
      MapLinesCons(line, s[i], s[i + 1..], RuleLine);
    } else {
      assert line == s;
    }
  }

  /** A trimmed one-line text that is not a list line gives one formatted line. */
  lemma OneLineLists(h: string)
    requires |h| >= 1 && NoTerminator(h) && !IsSpace(h[0]) && !IsSpace(h[|h| - 1])
    requires !IsListLine(h)
    ensures ListsHtml(h) == FormatLine(h)
  {
    assert '\n' !in h by {
      forall i | 0 <= i < |h| ensures h[i] != '\n' {
        assert !IsLineTerminator(h[i]);
      }
    }
    SplitJoin([h], '\n');
    assert Split(h, '\n') == [h];
    TrimNoop(h);
    assert [h][1..] == [];
    assert Continue([], []) == [];
    assert Group([h]) == Flush([]) + Emitted(h) + Continue([], []);
    assert RenderAll(Group([h])) == [FormatLine(h)];
  }

  /** The inline rules leave alone a text without `*`, backticks or `[`. */
  lemma InlineUntouched(s: string)
    requires '*' !in s && '`' !in s && '[' !in s
    ensures Links(Code(Formatting(s))) == s
  {
    EmphasisNoDelimiter(s, "**", "<strong>", "</strong>");
    EmphasisNoDelimiter(s, "*", "<em>", "</em>");
    CodeNone(s);
    LinksNone(s);
  }

  /**
   * A slide made of one plain line, free of markdown markers, becomes one
   * paragraph.
   */
  lemma PlainLineSlide(t: string)
    requires |t| >= 1 && NoTerminator(t) && !IsSpace(t[0]) && !IsSpace(t[|t| - 1])
    requires t[0] != '#' && t[0] != '<' && !IsListLine(t)
    requires '*' !in t && '`' !in t && '[' !in t
    ensures SlideHtml(t) == "<p>" + t + "</p>"
  {
    TrimNoop(t);
    HeadingsByLine(t);
    MapLinesSingle(t, HeadingRules);
    PlainLineStays(t);
    InlineUntouched(t);
    OneLineLists(t);
    assert !StartsWith(t, "<h") && !StartsWith(t, "<ul") by {
      if |t| >= 2 { assert t[..2][0] == t[0]; }
      if |t| >= 3 { assert t[..3][0] == t[0]; }
    }
  }

  /** The heading rule turns a one-line slide `#…# t` into its element. */
  lemma HeadingRewritten(n: Level, t: string)
    requires |t| >= 1 && NoTerminator(t) && !IsSpace(t[|t| - 1])
    ensures Headings.Headings(Trim(Marker(n) + t)) == OpenTag(n) + t + CloseTag(n)
  {
    var line := Marker(n) + t;
    assert line[0] == '#' && line[|line| - 1] == t[|t| - 1];
    TrimNoop(line);
    MarkerLineIsLine(n, t);
    HeadingsByLine(line);
    MapLinesSingle(line, HeadingRules);
    HeadingLineConverted(n, t);
  }

  /** The characters of the heading tags. */
  lemma HeadingTagChars(n: Level)
    ensures var o, c := OpenTag(n), CloseTag(n);
      |o| == 4 && o[..2] == "<h" && c[|c| - 1] == '>'
      && NoTerminator(o) && NoTerminator(c)
      && '*' !in o + c && '`' !in o + c && '[' !in o + c
  {
  }

  /** Text that starts with `<` is not a list line. */
  lemma TagNotListLine(h: string)
    requires h != [] && h[0] == '<'
    ensures !IsListLine(h)
  {
    assert DigitRun(h) == 0;
  }

  lemma NoTerminatorJoin(a: string, b: string)
    requires NoTerminator(a) && NoTerminator(b)
    ensures NoTerminator(a + b)
  {
    forall i | 0 <= i < |a + b| ensures !IsLineTerminator((a + b)[i]) {
      if i >= |a| { assert (a + b)[i] == b[i - |a|]; }
    }
  }

  /** What a one-line heading element is made of, as the later rules see it. */
  lemma HeadingElementShape(n: Level, t: string)
    requires |t| >= 1 && NoTerminator(t)
    requires '*' !in t && '`' !in t && '[' !in t
    ensures var h := OpenTag(n) + t + CloseTag(n);
      '*' !in h && '`' !in h && '[' !in h && NoTerminator(h) && StartsWith(h, "<h")
      && !IsSpace(h[0]) && !IsSpace(h[|h| - 1]) && !IsListLine(h)
  {
    var o, c := OpenTag(n), CloseTag(n);
    var h := o + t + c;
    HeadingTagChars(n);
    NoTerminatorJoin(o, t);
    NoTerminatorJoin(o + t, c);
    assert h[..2] == o[..2];
    assert h[0] == '<' && h[|h| - 1] == c[|c| - 1];
    TagNotListLine(h);
  }

  /** A slide made of one heading line becomes that heading element and nothing else. */
  lemma HeadingSlide(n: Level, t: string)
    requires |t| >= 1 && NoTerminator(t) && !IsSpace(t[|t| - 1])
    requires '*' !in t && '`' !in t && '[' !in t
    ensures SlideHtml(Marker(n) + t) == OpenTag(n) + t + CloseTag(n)
  {
    var h := OpenTag(n) + t + CloseTag(n);
    HeadingRewritten(n, t);
    HeadingElementShape(n, t);
    InlineUntouched(h);
    OneLineLists(h);
  }
}
