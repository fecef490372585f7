/**
 * How the optimiser reads the parser's slides, and the two stages joined as
 * `genererPresentation` joins them. `analyserContenuSlide` hands each slide's
 * markup to the browser's HTML parser; here that reading is a function from
 * the parser's output pieces to a fragment whose markup is exactly the
 * slide's markup, so both stages speak of the same string.
 */
module Pipeline {
  import opened JsText
  import opened Headings
  import opened Lists
  import opened Sanitize
  import opened Segments
  import opened Parser
  import opened Fragments
  import opened Packing
  import opened Optimizer

  /** The level that a heading tag's digit names. */
  function LevelOf(d: char): (n: Level)
    requires '1' <= d <= '3'
    ensures Digit(n) == d
  {
    if d == '1' then 1 else if d == '2' then 2 else 3
  }

  /** A line that is one `p` element. */
  predicate IsParagraphLine(line: string) {
    |line| >= 7 && line[..3] == "<p>" && line[|line| - 4..] == "</p>"
  }

  /** A line that is one `h1`, `h2` or `h3` element, opened and closed at the same level. */
  predicate IsHeadingLine(line: string) {
    |line| >= 9 && line[..2] == "<h" && '1' <= line[2] <= '3' && line[3] == '>'
    && line[|line| - 5..] == "</h" + [line[2]] + ">"
  }

  /** The element a rendered line is read as: a paragraph, a heading, or loose markup. */
  function LineNode(line: string): (n: Node)
    ensures NodeHtml(n) == line
  {
    if IsParagraphLine(line) then
      var inner := line[3..|line| - 4];
      assert line == line[..3] + inner + line[|line| - 4..];
      Para(inner)
    else if IsHeadingLine(line) then
      var inner := line[4..|line| - 5];
      var n := LevelOf(line[2]);
      assert line[..4] == OpenTag(n) by { assert line[..4] == line[..2] + [line[2]] + [line[3]]; }
      assert line == line[..4] + inner + line[|line| - 5..];
      Heading(n, inner)
    else Loose(line)
  }

  /**
   * A line that `formaterLigneNonListe` wraps is read back by the optimiser
   * as one paragraph whose content is the line, so it is counted as a
   * paragraph and its text is the line.
   */
  lemma FormattedLineRead(t: string)
    requires !StartsWith(t, "<h") && !StartsWith(t, "<ul")
    ensures LineNode(FormatLine(t)) == Para(t)
  {
    var line := FormatLine(t);
    assert line == "<p>" + t + "</p>";
    assert line[..3] == "<p>" && line[|line| - 4..] == "</p>";
    assert line[3..|line| - 4] == t;
  }

  /**
   * A line that is already a heading element passes `formaterLigneNonListe`
   * unchanged and is read back as that heading.
   */
  lemma FormattedHeadingRead(t: string)
    requires IsHeadingLine(t)
    ensures FormatLine(t) == t
    ensures LineNode(FormatLine(t)) == Heading(LevelOf(t[2]), t[4..|t| - 5])
  {
    assert t[..2] == "<h";
    assert StartsWith(t, "<h");
  }

  /** The node one output piece of the list pass is read as. */
  function PieceNode(p: Piece): (n: Node)
    ensures NodeHtml(n) == RenderPiece(p)
  {
    match p
    case ListPiece(contents) => List(contents)
    case LinePiece(line) => LineNode(line)
  }

  /** The pieces of a slide, read as a fragment: one node per piece, with the newline that joins them between. */
  function ToFragment(ps: seq<Piece>): Fragment {
    if ps == [] then []
    else if |ps| == 1 then [PieceNode(ps[0])]
    else [PieceNode(ps[0]), Loose("\n")] + ToFragment(ps[1..])
  }

  /** Reading loses nothing: the fragment's markup is the pieces rendered and joined with newlines. */
  lemma {:induction false} ToFragmentHtml(ps: seq<Piece>)
    ensures Html(ToFragment(ps)) == Join(RenderAll(ps), "\n")
  {
    if |ps| == 1 {
      assert Html([PieceNode(ps[0])]) == NodeHtml(PieceNode(ps[0])) + Html([]);
    } else if |ps| > 1 {
      var head: Fragment := [PieceNode(ps[0]), Loose("\n")];
      ToFragmentHtml(ps[1..]);
      HtmlAppend(head, ToFragment(ps[1..]));
      assert Html(head) == NodeHtml(PieceNode(ps[0])) + ("\n" + Html([]));
      assert RenderAll(ps)[1..] == RenderAll(ps[1..]);
      Associative(RenderPiece(ps[0]), "\n", Join(RenderAll(ps[1..]), "\n"));
    }
  }

  /** The fragment the optimiser reads from the slide the parser makes of one segment. */
  function SlideFragment(segment: string): Fragment {
    ToFragment(Group(Split(Rewrite(segment), '\n')))
  }

  /** The fragment's markup is the parser's slide. */
  lemma SlideFragmentHtml(segment: string)
    ensures Html(SlideFragment(segment)) == SlideHtml(segment)
  {
    ToFragmentHtml(Group(Split(Rewrite(segment), '\n')));
  }

  /** The slides of the markdown, as the optimiser reads them. */
  function SlideFragments(markdown: string): seq<Fragment> {
    Each(Segment(Clean(markdown)), SlideFragment)
  }

  /** One fragment per parsed slide, in order, each with the slide's markup. */
  lemma SlideFragmentsAre(markdown: string)
    ensures |SlideFragments(markdown)| == |ParseSlides(markdown)|
    ensures forall k :: 0 <= k < |SlideFragments(markdown)| ==> Html(SlideFragments(markdown)[k]) == ParseSlides(markdown)[k]
  {
    var segments := Segment(Clean(markdown));
    forall k | 0 <= k < |segments|
      ensures Html(SlideFragments(markdown)[k]) == ParseSlides(markdown)[k]
    {
      SlideFragmentHtml(segments[k]);
    }
  }

  /** What `genererPresentation` hands on: the parsed slides, optimised. */
  function Presentation(markdown: string): seq<string> {
    Optimized(SlideFragments(markdown))
  }

  /** `optimiserToutesSlides(parserMarkdownEnSlides(markdown))`. */
  method Present(markdown: string) returns (slides: seq<string>)
    ensures slides == Presentation(markdown)
  {
    var fragments := SlideFragments(markdown);
    slides := OptimizeAll(fragments);
  }

  /** Optimising never makes fewer slides than the parser made. */
  lemma PresentationCount(markdown: string)
    ensures |Presentation(markdown)| >= |ParseSlides(markdown)|
  {
    SlideFragmentsAre(markdown);
    OptimizedCount(SlideFragments(markdown));
  }

  /** Blank markdown gives an empty presentation. */
  lemma PresentationBlank(markdown: string)
    requires AllSpace(markdown)
    ensures Presentation(markdown) == []
  {
    ParseBlank(markdown);
    SlideFragmentsAre(markdown);
  }
}
