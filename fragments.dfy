/**
 * The slide fragments the optimiser measures and rewrites, and the
 * measurement `analyserContenuSlide` makes of them. A fragment is the
 * sequence of top-level pieces of markup the parser and the optimiser write:
 * heading elements, paragraphs, lists of items, and loose markup (the
 * newlines between pieces, and any other line). The counts are those of the
 * elements, the text is the text content.
 */
module Fragments {
  import opened JsText
  import opened Markup
  import opened Headings
  import opened Lists

  datatype Node =
    | Heading(level: Level, inner: string)
    | Para(inner: string)
    | List(items: seq<string>)
    | Loose(markup: string)

  type Fragment = seq<Node>

  /** The markup of one node: its `outerHTML`. */
  function NodeHtml(n: Node): string {
    match n
    case Heading(l, inner) => OpenTag(l) + inner + CloseTag(l)
    case Para(inner) => "<p>" + inner + "</p>"
    case List(items) => ListHtml(ListItems(items))
    case Loose(markup) => markup
  }

  /** The markup of a fragment. */
  function Html(f: Fragment): string {
    if f == [] then [] else NodeHtml(f[0]) + Html(f[1..])
  }

  /** The text content of list items, one after the other. */
  function ItemsText(items: seq<string>): string {
    if items == [] then [] else StripTags(items[0]) + ItemsText(items[1..])
  }

  function NodeText(n: Node): string {
    match n
    case Heading(_, inner) => StripTags(inner)
    case Para(inner) => StripTags(inner)
    case List(items) => ItemsText(items)
    case Loose(markup) => StripTags(markup)
  }

  /** `textContent` of the fragment. */
  function Text(f: Fragment): string {
    if f == [] then [] else NodeText(f[0]) + Text(f[1..])
  }

  /** The inner markup of the `p` elements, in document order. */
  function Paragraphs(f: Fragment): seq<string> {
    if f == [] then [] else (if f[0].Para? then [f[0].inner] else []) + Paragraphs(f[1..])
  }

  /** The contents of the `li` elements, in document order. */
  function Items(f: Fragment): seq<string> {
    if f == [] then [] else (if f[0].List? then f[0].items else []) + Items(f[1..])
  }

  /** The number of `h1`, `h2` and `h3` elements. */
  function HeadingCount(f: Fragment): nat {
    if f == [] then 0 else (if f[0].Heading? then 1 else 0) + HeadingCount(f[1..])
  }

  /** Position of the first heading, or `|f|` when there is none. */
  function FirstHeading(f: Fragment): (k: nat)
    ensures k <= |f|
    ensures k < |f| ==> f[k].Heading?
    ensures forall j :: 0 <= j < k ==> !f[j].Heading?
  {
    if f == [] then 0
    else if f[0].Heading? then 0
    else FirstHeading(f[1..]) + 1
  }

  /** `titres[0].outerHTML` as a fragment: the first heading, or nothing. */
  function Lead(f: Fragment): Fragment {
    var k := FirstHeading(f);
    if k < |f| then [f[k]] else []
  }

  /** What `analyserContenuSlide` measures and the optimiser reads. */
  datatype Analysis = Analysis(characters: nat, lines: nat, headings: nat, paragraphs: nat, items: nat)

  /** `analyserContenuSlide(contenuHTML)`: characters of the trimmed text, its non-blank lines, and the element counts. */
  function Analyze(f: Fragment): Analysis {
    var text := Text(f);
    Analysis(Units(Trim(text)), |NonBlank(Split(text, '\n'))|, HeadingCount(f), |Paragraphs(f)|, |Items(f)|)
  }

  /** Every measurement of two fragments side by side adds up. */
  lemma AppendFacts(f: Fragment, g: Fragment)
    ensures Html(f + g) == Html(f) + Html(g)
    ensures Text(f + g) == Text(f) + Text(g)
    ensures Paragraphs(f + g) == Paragraphs(f) + Paragraphs(g)
    ensures Items(f + g) == Items(f) + Items(g)
    ensures HeadingCount(f + g) == HeadingCount(f) + HeadingCount(g)
  {
    HtmlAppend(f, g);
    TextAppend(f, g);
    ParagraphsAppend(f, g);
    ItemsAppend(f, g);
    HeadingCountAppend(f, g);
  }

  lemma {:induction false} HtmlAppend(f: Fragment, g: Fragment)
    ensures Html(f + g) == Html(f) + Html(g)
  {
    if f == [] {
      assert f + g == g;
    } else {
      HeadTail(f, g);
      HtmlAppend(f[1..], g);
    }
  }

  lemma {:induction false} TextAppend(f: Fragment, g: Fragment)
    ensures Text(f + g) == Text(f) + Text(g)
  {
    if f == [] {
      assert f + g == g;
    } else {
      HeadTail(f, g);
      TextAppend(f[1..], g);
    }
  }

  lemma {:induction false} ParagraphsAppend(f: Fragment, g: Fragment)
    ensures Paragraphs(f + g) == Paragraphs(f) + Paragraphs(g)
  {
    if f == [] {
      assert f + g == g;
    } else {
      HeadTail(f, g);
      ParagraphsAppend(f[1..], g);
      var h := if f[0].Para? then [f[0].inner] else [];
      Associative(h, Paragraphs(f[1..]), Paragraphs(g));
    }
  }

  lemma {:induction false} ItemsAppend(f: Fragment, g: Fragment)
    ensures Items(f + g) == Items(f) + Items(g)
  {
    if f == [] {
      assert f + g == g;
    } else {
      HeadTail(f, g);
      ItemsAppend(f[1..], g);
      var h := if f[0].List? then f[0].items else [];
      Associative(h, Items(f[1..]), Items(g));
    }
  }

  lemma {:induction false} HeadingCountAppend(f: Fragment, g: Fragment)
    ensures HeadingCount(f + g) == HeadingCount(f) + HeadingCount(g)
  {
    if f == [] {
      assert f + g == g;
    } else {
      HeadTail(f, g);
      HeadingCountAppend(f[1..], g);
    }
  }

  /** The lead of `f + g` is the lead of `f`, or else the lead of `g`. */
  lemma {:induction false} LeadAppend(f: Fragment, g: Fragment)
    ensures Lead(f + g) == if Lead(f) != [] then Lead(f) else Lead(g)
  {
    if f != [] {
      assert (f + g)[0] == f[0];
      if !f[0].Heading? {
        HeadTail(f, g);
        LeadAppend(f[1..], g);
      }
    } else {
      assert f + g == g;
    }
  }

  /** The lead is a heading, so it holds no paragraph, no item and no trouble for the counts. */
  lemma LeadFacts(f: Fragment)
    ensures |Lead(f)| <= 1
    ensures Lead(f) != [] ==> Lead(f)[0].Heading?
    ensures Lead(f) == [] <==> HeadingCount(f) == 0
    ensures Paragraphs(Lead(f)) == [] && Items(Lead(f)) == []
    ensures HeadingCount(Lead(f)) == if Lead(f) == [] then 0 else 1
  {
    HeadingCountZero(f);
  }

  lemma {:induction false} HeadingCountZero(f: Fragment)
    ensures HeadingCount(f) == 0 <==> forall j :: 0 <= j < |f| ==> !f[j].Heading?
  {
    if f != [] {
      HeadingCountZero(f[1..]);
      assert forall j :: 1 <= j < |f| ==> f[j] == f[1..][j - 1];
    }
  }

  lemma {:induction false} AllSpaceAppend(a: string, b: string)
    ensures AllSpace(a + b) <==> AllSpace(a) && AllSpace(b)
  {
    assert forall i :: 0 <= i < |a| ==> (a + b)[i] == a[i];
    assert forall i :: 0 <= i < |b| ==> (a + b)[|a| + i] == b[i];
  }

  /** A join with a white-space separator is blank exactly when every part is. */
  lemma {:induction false} JoinBlank(parts: seq<string>, c: char)
    requires |parts| >= 1 && IsSpace(c)
    ensures AllSpace(Join(parts, [c])) <==> forall k :: 0 <= k < |parts| ==> AllSpace(parts[k])
  {
    if |parts| > 1 {
      JoinBlank(parts[1..], c);
      AllSpaceAppend(parts[0], [c]);
      AllSpaceAppend(parts[0] + [c], Join(parts[1..], [c]));
      assert forall k :: 1 <= k < |parts| ==> parts[k] == parts[1..][k - 1];
    }
  }

  /** The filter keeps nothing exactly when every part is blank. */
  lemma {:induction false} NonBlankEmpty(parts: seq<string>)
    ensures NonBlank(parts) == [] <==> forall k :: 0 <= k < |parts| ==> AllSpace(parts[k])
  {
    if parts != [] {
      NonBlankEmpty(parts[1..]);
      BlankIff(parts[0]);
      assert forall k :: 1 <= k < |parts| ==> parts[k] == parts[1..][k - 1];
    }
  }

  /** A slide has no character to count exactly when it has no line to count. */
  lemma CharactersIffLines(f: Fragment)
    ensures Analyze(f).characters == 0 <==> Analyze(f).lines == 0
  {
    var text := Text(f);
    var parts := Split(text, '\n');
    BlankIff(text);
    JoinBlank(parts, '\n');
    NonBlankEmpty(parts);
  }

  /** Every piece of markup in the fragment holds whole tags only. */
  predicate WellFormed(f: Fragment) {
    forall k :: 0 <= k < |f| ==> NodeWellFormed(f[k])
  }

  predicate NodeWellFormed(n: Node) {
    match n
    case Heading(_, inner) => TagsClosed(inner)
    case Para(inner) => TagsClosed(inner)
    case List(items) => forall k :: 0 <= k < |items| ==> TagsClosed(items[k])
    case Loose(markup) => TagsClosed(markup)
  }

  /** A constant tag: `<`, characters other than `>`, and `>`. */
  predicate IsTag(t: string) {
    |t| >= 2 && t[0] == '<' && t[|t| - 1] == '>' && '>' !in t[1..|t| - 1]
  }

  lemma TagStrip(t: string, b: string)
    requires IsTag(t)
    ensures StripTags(t + b) == StripTags(b)
    ensures TagsClosed(t)
  {
    var m := t[1..|t| - 1];
    assert t + b == "<" + m + ">" + b;
    StripTagsSpan(m, b);
  }

  /** A constant tag on its own strips to nothing. */
  lemma TagGone(t: string)
    requires IsTag(t)
    ensures StripTags(t) == [] && TagsClosed(t)
  {
    TagStrip(t, []);
    assert t + [] == t;
  }

  /** Constant tags around well-formed inner markup: only the inner text remains. */
  lemma Wrapped(open: string, inner: string, close: string)
    requires IsTag(open) && IsTag(close) && TagsClosed(inner)
    ensures StripTags(open + inner + close) == StripTags(inner)
    ensures TagsClosed(open + inner + close)
  {
    var rest := inner + close;
    TagStrip(open, rest);
    TagGone(close);
    StripTagsAppend(inner, close);
    TagsClosedAppend(inner, close);
    TagsClosedAppend(open, rest);
    Associative(open, inner, close);
  }

  lemma {:induction false} ItemsStrip(items: seq<string>)
    requires forall k :: 0 <= k < |items| ==> TagsClosed(items[k])
    ensures StripTags(Concat(ListItems(items))) == ItemsText(items)
    ensures TagsClosed(Concat(ListItems(items)))
  {
    if items == [] {
      assert Concat(ListItems(items)) == [];
    } else {
      var rest := Concat(ListItems(items[1..]));
      ItemsStrip(items[1..]);
      assert ListItems(items) == [ListItem(items[0])] + ListItems(items[1..]);
      assert Concat(ListItems(items)) == ListItem(items[0]) + rest;
      assert IsTag("<li>") && IsTag("</li>");
      Wrapped("<li>", items[0], "</li>");
      StripTagsAppend(ListItem(items[0]), rest);
      TagsClosedAppend(ListItem(items[0]), rest);
    }
  }

  lemma LevelTags(l: Level)
    ensures IsTag(OpenTag(l)) && IsTag(CloseTag(l))
  {
    var o, c := OpenTag(l), CloseTag(l);
    assert o[1..|o| - 1] == "h" + [Digit(l)];
    assert c[1..|c| - 1] == "/h" + [Digit(l)];
  }

  lemma NodeStrip(n: Node)
    requires NodeWellFormed(n)
    ensures StripTags(NodeHtml(n)) == NodeText(n)
    ensures TagsClosed(NodeHtml(n))
  {
    match n
    case Heading(l, inner) =>
      LevelTags(l);
      Wrapped(OpenTag(l), inner, CloseTag(l));
    case Para(inner) =>
      assert IsTag("<p>") && IsTag("</p>");
      Wrapped("<p>", inner, "</p>");
    case List(items) =>
      ItemsStrip(items);
      var open := "<ul class=\"fragment\">";
      assert IsTag(open) && IsTag("</ul>");
      Wrapped(open, Concat(ListItems(items)), "</ul>");
    case Loose(markup) =>
  }

  /**
   * The measured text is the markup with its tags deleted, so the structural
   * measurement agrees with reading the rendered markup back.
   */
  lemma {:induction false} TextIsStrippedHtml(f: Fragment)
    requires WellFormed(f)
    ensures Text(f) == StripTags(Html(f))
    ensures TagsClosed(Html(f))
  {
    if f == [] {
      assert Html(f) == [];
    } else {
      assert WellFormed(f[1..]) by {
        forall k | 0 <= k < |f[1..]| ensures NodeWellFormed(f[1..][k]) { assert f[1..][k] == f[k + 1]; }
      }
      TextIsStrippedHtml(f[1..]);
      assert NodeWellFormed(f[0]);
      NodeStrip(f[0]);
      StripTagsAppend(NodeHtml(f[0]), Html(f[1..]));
      TagsClosedAppend(NodeHtml(f[0]), Html(f[1..]));
    }
  }
}
