/**
 * `optimiserSlide`, `redecouperSlideIntelligente`, `calculerTaillePolice` and
 * `optimiserToutesSlides`: a slide that is too long, has too many list items
 * or too many lines is re-split by the first strategy that applies, and every
 * resulting slide is wrapped in a `div` whose class sets its font size from
 * the density of its content.
 */
module Optimizer {
  import opened JsText
  import opened Fragments
  import opened Packing
  import opened Splitters

  /** `LIGNES_MAX_PAR_SLIDE`: non-blank lines per slide. */
  const MaxLines: nat := 15
  /** More paragraphs than this call for the paragraph split. */
  const ManyParagraphs: nat := 4
  /** With at most this many paragraphs, too many characters call for the sentence split. */
  const FewParagraphs: nat := 2

  /** `estSlideOptimale(analyse)`: the three checks, in the source's order. */
  predicate IsOptimal(a: Analysis) {
    if a.characters > MaxCharacters then false
    else if a.items > MaxItems then false
    else a.lines <= MaxLines
  }

  /** A slide is optimal exactly when it is within all three limits of the configuration. */
  lemma OptimalIff(a: Analysis)
    ensures IsOptimal(a) <==> a.characters <= 800 && a.items <= 8 && a.lines <= 15
  {
  }

  /** The character limit is inclusive: 800 characters pass, 801 do not. */
  lemma OptimalAtLimit(a: Analysis)
    requires a.items <= MaxItems && a.lines <= MaxLines
    ensures IsOptimal(a.(characters := 800))
    ensures !IsOptimal(a.(characters := 801))
  {
  }

  /** What `redecouperSlideIntelligente` returns: the first strategy whose condition holds, or the slide itself. */
  function Resplit(f: Fragment): seq<Fragment> {
    var a := Analyze(f);
    if a.items > MaxItems then ByList(f)
    else if a.paragraphs > ManyParagraphs then ByParagraph(f)
    else if a.paragraphs <= FewParagraphs && a.characters > MaxCharacters then BySentence(f)
    else [f]
  }

  /** What `optimiserSlide` returns: an optimal slide as it is, any other re-split. */
  function Optimize(f: Fragment): seq<Fragment> {
    if IsOptimal(Analyze(f)) then [f] else Resplit(f)
  }

  /** The strategy order of `Resplit`, one case at a time. */
  lemma ResplitCases(f: Fragment)
    ensures var a := Analyze(f);
      (a.items > MaxItems ==> Resplit(f) == ByList(f))
      && (a.items <= MaxItems && a.paragraphs > ManyParagraphs ==> Resplit(f) == ByParagraph(f))
      && (a.items <= MaxItems && a.paragraphs <= FewParagraphs && a.characters > MaxCharacters ==> Resplit(f) == BySentence(f))
      && (a.items <= MaxItems && a.paragraphs <= ManyParagraphs && !(a.paragraphs <= FewParagraphs && a.characters > MaxCharacters) ==> Resplit(f) == [f])
  {
  }

  /**
   * `redecouperSlideIntelligente(contenuHTML, analyse)`. The branches are the
   * same as in `Resplit`; what the method adds is that each strategy is run
   * by its loop method (`SplitByList`, `SplitByParagraph`, `SplitBySentence`),
   * each proved equal to the function `Resplit` calls.
   */
  method ResplitSlide(f: Fragment) returns (slides: seq<Fragment>)
    ensures slides == Resplit(f)
  {
    var a := Analyze(f);
    if a.items > MaxItems {
      slides := SplitByList(f);
      ResplitCases(f);
    } else if a.paragraphs > ManyParagraphs {
      slides := SplitByParagraph(f);
      ResplitCases(f);
    } else if a.paragraphs <= FewParagraphs && a.characters > MaxCharacters {
      slides := SplitBySentence(f);
      ResplitCases(f);
    } else {
      slides := [f];
      ResplitCases(f);
    }
  }

  /**
   * `optimiserSlide(contenuHTML)`. The branch is the same as in `Optimize`;
   * the re-split is run by `ResplitSlide` and so by the loop methods.
   */
  method OptimizeSlide(f: Fragment) returns (slides: seq<Fragment>)
    ensures slides == Optimize(f)
  {
    var a := Analyze(f);
    if IsOptimal(a) {
      slides := [f];
    } else {
      slides := ResplitSlide(f);
    }
  }

  lemma ByListNonEmpty(f: Fragment)
    requires Analyze(f).items > MaxItems
    ensures |ByList(f)| >= 2
  {
    ByListFacts(f);
  }

  lemma ByParagraphNonEmpty(f: Fragment)
    ensures ByParagraph(f) != []
  {
  }

  lemma BySentenceNonEmpty(f: Fragment)
    ensures BySentence(f) != []
  {
  }

  /** Optimising never loses a slide: it gives one slide or more. */
  lemma OptimizeNonEmpty(f: Fragment)
    ensures Optimize(f) != []
  {
    var a := Analyze(f);
    if IsOptimal(a) {
    } else if a.items > MaxItems {
      ByListNonEmpty(f);
    } else if a.paragraphs > ManyParagraphs {
      ByParagraphNonEmpty(f);
    } else if a.paragraphs <= FewParagraphs && a.characters > MaxCharacters {
      BySentenceNonEmpty(f);
    }
  }

  /**
   * Too many list items: the slide becomes its items eight at a time, under
   * its first heading, and gives up its paragraphs; there are at least two
   * slides, each within the item limit.
   */
  lemma ListCase(f: Fragment)
    requires Analyze(f).items > MaxItems
    ensures Optimize(f) == ByList(f)
    ensures |Optimize(f)| == (|Items(f)| + 7) / 8 >= 2
    ensures AllItems(Optimize(f)) == Items(f)
    ensures AllParagraphs(Optimize(f)) == []
    ensures forall k :: 0 <= k < |Optimize(f)| ==> 1 <= Analyze(Optimize(f)[k]).items <= MaxItems
    ensures forall k :: 0 <= k < |Optimize(f)| ==> Lead(Optimize(f)[k]) == Lead(f)
  {
    ListDispatch(f);
    ByListNonEmpty(f);
    ByListFacts(f);
  }

  lemma ListDispatch(f: Fragment)
    requires Analyze(f).items > MaxItems
    ensures Optimize(f) == ByList(f)
  {
  }

  /**
   * Items within the limit and more than four paragraphs: the paragraphs are
   * packed 800 characters at a time under the first heading; the fallback to
   * the slide itself never applies.
   */
  lemma ParagraphCase(f: Fragment)
    requires !IsOptimal(Analyze(f))
    requires Analyze(f).items <= MaxItems && Analyze(f).paragraphs > ManyParagraphs
    ensures Optimize(f) == ParagraphSlides(Lead(f), Pack(Paragraphs(f), ParagraphWeight, MaxCharacters))
    ensures AllParagraphs(Optimize(f)) == Paragraphs(f)
    ensures AllItems(Optimize(f)) == []
    ensures forall k :: 0 <= k < |Optimize(f)| ==> Paragraphs(Optimize(f)[k]) != []
    ensures forall k :: 0 <= k < |Optimize(f)| && |Paragraphs(Optimize(f)[k])| >= 2 ==>
      Sum(Paragraphs(Optimize(f)[k]), ParagraphWeight) <= MaxCharacters
    ensures forall k :: 0 <= k < |Optimize(f)| ==> Lead(Optimize(f)[k]) == Lead(f)
  {
    ParagraphDispatch(f);
    ByParagraphFacts(f);
  }

  lemma ParagraphDispatch(f: Fragment)
    requires !IsOptimal(Analyze(f))
    requires Analyze(f).items <= MaxItems && Analyze(f).paragraphs > ManyParagraphs
    ensures Optimize(f) == ByParagraph(f)
    ensures ByParagraph(f) == ParagraphSlides(Lead(f), Pack(Paragraphs(f), ParagraphWeight, MaxCharacters))
  {
    PackFacts(Paragraphs(f), ParagraphWeight, MaxCharacters);
  }

  /**
   * Items within the limit, at most two paragraphs and more than 800
   * characters: the text is cut into sentences, packed into one paragraph per
   * slide under the first heading, and keeps every visible character; the
   * fallback to the slide itself never applies.
   */
  lemma SentenceCase(f: Fragment)
    requires Analyze(f).items <= MaxItems && Analyze(f).paragraphs <= FewParagraphs
    requires Analyze(f).characters > MaxCharacters
    ensures Optimize(f) == SentenceSlides(Lead(f), Pack(Sentences.Phrases(Text(f)), Units, MaxCharacters))
    ensures forall k :: 0 <= k < |Optimize(f)| ==> |Paragraphs(Optimize(f)[k])| == 1
    ensures forall k :: 0 <= k < |Optimize(f)| ==> Items(Optimize(f)[k]) == []
    ensures forall k :: 0 <= k < |Optimize(f)| ==> Lead(Optimize(f)[k]) == Lead(f)
    ensures Visible(Concat(Carried(Optimize(f)))) == Visible(Text(f))
  {
    SentenceDispatch(f);
    BySentenceFacts(f);
  }

  lemma SentenceDispatch(f: Fragment)
    requires Analyze(f).items <= MaxItems && Analyze(f).paragraphs <= FewParagraphs
    requires Analyze(f).characters > MaxCharacters
    ensures Trim(Text(f)) != []
    ensures Optimize(f) == BySentence(f)
    ensures BySentence(f) == SentenceSlides(Lead(f), Pack(Sentences.Phrases(Text(f)), Units, MaxCharacters))
  {
    LongTextNotBlank(f);
    SentenceGroups(f);
  }

  lemma LongTextNotBlank(f: Fragment)
    requires Analyze(f).characters > MaxCharacters
    ensures Trim(Text(f)) != []
  {
  }

  /** Text that is not blank has sentences, so the fallback of the sentence split does not apply. */
  lemma SentenceGroups(f: Fragment)
    requires Trim(Text(f)) != []
    ensures BySentence(f) == SentenceSlides(Lead(f), Pack(Sentences.Phrases(Text(f)), Units, MaxCharacters))
  {
    var phrases := Sentences.Phrases(Text(f));
    SentencesOfText(Text(f));
    PackFacts(phrases, Units, MaxCharacters);
  }

  /**
   * Two kinds of slide fail the check and still come back unchanged, because
   * no strategy applies: one over the line limit alone with at most four
   * paragraphs, and one over the character limit with three or four
   * paragraphs.
   */
  lemma KeptOverLimit(f: Fragment)
    ensures var a := Analyze(f);
      a.lines > MaxLines && a.characters <= MaxCharacters && a.items <= MaxItems && a.paragraphs <= ManyParagraphs
      ==> !IsOptimal(a) && Optimize(f) == [f]
    ensures var a := Analyze(f);
      a.characters > MaxCharacters && a.items <= MaxItems && FewParagraphs < a.paragraphs <= ManyParagraphs
      ==> !IsOptimal(a) && Optimize(f) == [f]
  {
  }

  // -------------------------------------------------------------- font size

  /** The density score of `calculerTaillePolice`, computed exactly. */
  function Score(a: Analysis): real {
    (a.characters as real / MaxCharacters as real + (a.items + a.paragraphs) as real / 10.0) / 2.0
  }

  /** `calculerTaillePolice(analyse)`. */
  function SizeClass(a: Analysis): string {
    var score := Score(a);
    if score > 0.9 then "taille-tres-petite"
    else if score > 0.7 then "taille-petite"
    else if score < 0.3 then "taille-grande"
    else "taille-normale"
  }

  /** The score in whole numbers: 1600 times it, characters plus 80 per element. */
  function Density(a: Analysis): nat {
    a.characters + 80 * (a.items + a.paragraphs)
  }

  /** The classes by density: above 1440, above 1120, below 480, and the rest. */
  lemma SizeClassByDensity(a: Analysis)
    ensures SizeClass(a) == if Density(a) > 1440 then "taille-tres-petite"
                            else if Density(a) > 1120 then "taille-petite"
                            else if Density(a) < 480 then "taille-grande"
                            else "taille-normale"
  {
    assert Score(a) == Density(a) as real / 1600.0;
  }

  /** The font scale each class stands for. */
  function Scale(c: string): real {
    if c == "taille-tres-petite" then 0.75
    else if c == "taille-petite" then 0.85
    else if c == "taille-grande" then 1.15
    else 1.0
  }

  /** A denser slide never gets a larger font. */
  lemma SizeClassMonotone(a: Analysis, b: Analysis)
    requires Density(a) <= Density(b)
    ensures Scale(SizeClass(b)) <= Scale(SizeClass(a))
  {
    SizeClassByDensity(a);
    SizeClassByDensity(b);
  }

  // ------------------------------------------------------------- all slides

  /** The `div` that carries a size class around a slide's markup. */
  function Tagged(classe: string, html: string): string {
    "<div class=\"" + classe + "\">" + html + "</div>"
  }

  /** One optimised slide, analysed again and wrapped with its size class. */
  function Wrap(p: Fragment): string {
    Tagged(SizeClass(Analyze(p)), Html(p))
  }

  /** The wrapped new slides of one slide. */
  function Expand(f: Fragment): seq<string> {
    Each(Optimize(f), Wrap)
  }

  /** `g` applied to each element, the results concatenated in order, built from the left as a loop builds them. */
  function Gather<A, B>(xs: seq<A>, g: A -> seq<B>): seq<B> {
    if xs == [] then [] else Gather(xs[..|xs| - 1], g) + g(xs[|xs| - 1])
  }

  /** What `optimiserToutesSlides(slides)` returns: the wrapped new slides of each slide, slide after slide. */
  function Optimized(slides: seq<Fragment>): seq<string> {
    Gather(slides, Expand)
  }

  /** `optimiserToutesSlides(slides)`. */
  method OptimizeAll(slides: seq<Fragment>) returns (r: seq<string>)
    ensures r == Optimized(slides)
  {
    r := [];
    var i := 0;
    while i < |slides|
      invariant 0 <= i <= |slides|
      invariant r == Gather(slides[..i], Expand)
    {
      var pieces := OptimizeSlide(slides[i]);
      ghost var before := r;
      r := PushEach(r, pieces, Wrap);
      AllStep(slides, i, pieces, before, r);
      i := i + 1;
    }
    AllDone(slides, r);
  }

  lemma AllDone(slides: seq<Fragment>, r: seq<string>)
    requires r == Gather(slides[..|slides|], Expand)
    ensures r == Optimized(slides)
  {
    assert slides[..|slides|] == slides;
  }

  /** One turn of the outer loop: the wrapped new slides of `slides[i]` are appended. */
  lemma AllStep(slides: seq<Fragment>, i: nat, pieces: seq<Fragment>, before: seq<string>, r: seq<string>)
    requires i < |slides| && pieces == Optimize(slides[i])
    requires before == Gather(slides[..i], Expand) && r == before + Each(pieces, Wrap)
    ensures r == Gather(slides[..i + 1], Expand)
  {
    GatherStep(slides, i, Expand);
  }

  lemma GatherStep<A, B>(xs: seq<A>, i: nat, g: A -> seq<B>)
    requires i < |xs|
    ensures Gather(xs[..i + 1], g) == Gather(xs[..i], g) + g(xs[i])
  {
    assert xs[..i + 1][..i] == xs[..i];
  }

  lemma {:induction false} GatherAppend<A, B>(a: seq<A>, b: seq<A>, g: A -> seq<B>)
    ensures Gather(a + b, g) == Gather(a, g) + Gather(b, g)
    decreases |b|
  {
    if b == [] {
      assert a + b == a;
    } else {
      var b' := b[..|b| - 1];
      assert (a + b)[..|a + b| - 1] == a + b';
      assert (a + b)[|a + b| - 1] == b[|b| - 1];
      GatherAppend(a, b', g);
      Associative(Gather(a, g), Gather(b', g), g(b[|b| - 1]));
    }
  }

  /** Gathering `h` over the results of `g` is mapping `h` over all of them, flattened. */
  lemma {:induction false} GatherEach<A, B, C>(xs: seq<A>, e: A -> seq<C>, g: A -> seq<B>, h: B -> C)
    requires forall x :: e(x) == Each(g(x), h)
    ensures Gather(xs, e) == Each(Flatten(Each(xs, g)), h)
    decreases |xs|
  {
    if xs != [] {
      var init, last := xs[..|xs| - 1], xs[|xs| - 1];
      GatherEach(init, e, g, h);
      assert Each(xs, g) == Each(init, g) + [g(last)];
      FlattenAppend(Each(init, g), [g(last)]);
      assert Flatten([g(last)]) == g(last) + Flatten([]);
      EachAppend(Flatten(Each(init, g)), g(last), h);
    }
  }

  lemma {:induction false} GatherCount<A, B>(xs: seq<A>, e: A -> seq<B>)
    requires forall x :: e(x) != []
    ensures |Gather(xs, e)| >= |xs|
    decreases |xs|
  {
    if xs != [] {
      GatherCount(xs[..|xs| - 1], e);
    }
  }

  lemma {:induction false} GatherSingles<A, B>(xs: seq<A>, e: A -> seq<B>, h: A -> B)
    requires forall k :: 0 <= k < |xs| ==> e(xs[k]) == [h(xs[k])]
    ensures Gather(xs, e) == Each(xs, h)
    decreases |xs|
  {
    if xs != [] {
      var init, last := xs[..|xs| - 1], xs[|xs| - 1];
      assert forall k :: 0 <= k < |init| ==> init[k] == xs[k];
      GatherSingles(init, e, h);
      assert xs == init + [last];
      EachAppend(init, [last], h);
    }
  }

  /** The new slides of a concatenation are those of each part, in order. */
  lemma OptimizedAppend(a: seq<Fragment>, b: seq<Fragment>)
    ensures Optimized(a + b) == Optimized(a) + Optimized(b)
  {
    GatherAppend(a, b, Expand);
  }

  /** The output is the new slides of every slide, in order, each wrapped with its size class. */
  lemma OptimizedIsWrapped(slides: seq<Fragment>)
    ensures Optimized(slides) == Each(Flatten(Each(slides, Optimize)), Wrap)
  {
    GatherEach(slides, Expand, Optimize, Wrap);
  }

  /** No slide is lost: there are at least as many slides out as in. */
  lemma OptimizedCount(slides: seq<Fragment>)
    ensures |Optimized(slides)| >= |slides|
  {
    forall f ensures Expand(f) != [] {
      OptimizeNonEmpty(f);
    }
    GatherCount(slides, Expand);
  }

  lemma KeptWrapped(f: Fragment)
    requires IsOptimal(Analyze(f))
    ensures Expand(f) == [Wrap(f)]
  {
    KeptOptimal(f);
    EachSingle(f, Optimize(f), Wrap);
  }

  lemma KeptOptimal(f: Fragment)
    requires IsOptimal(Analyze(f))
    ensures Optimize(f) == [f]
  {
  }

  /** When every slide is already optimal, each is kept and only wrapped. */
  lemma OptimizedAllOptimal(slides: seq<Fragment>)
    requires forall k :: 0 <= k < |slides| ==> IsOptimal(Analyze(slides[k]))
    ensures Optimized(slides) == Each(slides, Wrap)
  {
    forall k | 0 <= k < |slides| ensures Expand(slides[k]) == [Wrap(slides[k])] {
      KeptWrapped(slides[k]);
    }
    GatherSingles(slides, Expand, Wrap);
  }
}
