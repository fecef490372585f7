/**
 * The three re-splitting strategies of the optimiser: by list items
 * (`redecouperParListes`), by paragraphs (`redecouperParParagraphes`) and by
 * sentences (`redecouperParPhrasesLogiques`). Each is a loop over the pieces
 * of one slide, written as a method and proved equal to a specification
 * function, about which the lemmas below state what the new slides hold.
 * Every new slide starts with the first heading of the slide, when it has one.
 */
module Splitters {
  import opened JsText
  import opened Markup
  import opened Fragments
  import opened Packing
  import opened Sentences

  /** `ELEMENTS_LISTE_MAX`: list items per slide. */
  const MaxItems: nat := 8
  /** `CARACTERES_MAX_PAR_SLIDE`: characters per slide. */
  const MaxCharacters: nat := 800

  // ---------------------------------------------------------------- by list

  /** One slide per run of items: the lead, then a list of the run. */
  function ListSlides(lead: Fragment, runs: seq<seq<string>>): seq<Fragment> {
    seq(|runs|, k requires 0 <= k < |runs| => lead + [List(runs[k])])
  }

  /** What `redecouperParListes` returns: the items eight at a time, under the lead. */
  function ByList(f: Fragment): seq<Fragment> {
    ListSlides(Lead(f), Chunks(Items(f), MaxItems))
  }

  /** `redecouperParListes(analyse)`. */
  method SplitByList(f: Fragment) returns (slides: seq<Fragment>)
    ensures slides == ByList(f)
  {
    var lead := Lead(f);
    var items := Items(f);
    slides := [];
    var current: seq<string> := [];
    var count := 0;
    var i := 0;
    assert current + items[i..] == items;
    while i < |items|
      invariant 0 <= i <= |items|
      invariant count == |current| < MaxItems
      invariant slides + ListSlides(lead, Chunks(current + items[i..], MaxItems)) == ByList(f)
    {
      ItemStep(current, items, i);
      current := current + [items[i]];
      count := count + 1;
      if count >= MaxItems {
        FullRun(slides, lead, current, items[i + 1..]);
        slides := slides + [lead + [List(current)]];
        current := [];
        count := 0;
      }
      i := i + 1;
    }
    LastRun(slides, lead, current, items[i..]);
    if |current| > 0 {
      slides := slides + [lead + [List(current)]];
    }
  }

  lemma ItemStep(current: seq<string>, items: seq<string>, i: nat)
    requires i < |items|
    ensures current + items[i..] == (current + [items[i]]) + items[i + 1..]
  {
    assert items[i..] == [items[i]] + items[i + 1..];
  }

  /** Closing a full run of items emits its slide, and the rest is split on its own. */
  lemma FullRun(slides: seq<Fragment>, lead: Fragment, run: seq<string>, rest: seq<string>)
    requires |run| == MaxItems
    ensures slides + ListSlides(lead, Chunks(run + rest, MaxItems))
         == (slides + [lead + [List(run)]]) + ListSlides(lead, Chunks([] + rest, MaxItems))
  {
    ChunksFull(run, rest, MaxItems);
    ListSlidesCons(lead, run, Chunks(rest, MaxItems));
    assert [] + rest == rest;
    Associative(slides, [lead + [List(run)]], ListSlides(lead, Chunks(rest, MaxItems)));
  }

  /** After the last item, the open run, if any, is the last slide. */
  lemma LastRun(slides: seq<Fragment>, lead: Fragment, run: seq<string>, rest: seq<string>)
    requires rest == [] && |run| < MaxItems
    ensures slides + ListSlides(lead, Chunks(run + rest, MaxItems))
         == slides + (if |run| > 0 then [lead + [List(run)]] else [])
  {
    assert run + rest == run;
    if |run| > 0 {
      assert Chunks(run, MaxItems) == [run];
    } else {
      assert ListSlides(lead, Chunks(run, MaxItems)) == [];
    }
  }

  lemma ListSlidesCons(lead: Fragment, run: seq<string>, runs: seq<seq<string>>)
    ensures ListSlides(lead, [run] + runs) == [lead + [List(run)]] + ListSlides(lead, runs)
  {
  }

  /** All the items of a sequence of slides, slide after slide. */
  function AllItems(slides: seq<Fragment>): seq<string> {
    if slides == [] then [] else Items(slides[0]) + AllItems(slides[1..])
  }

  /** All the paragraphs of a sequence of slides, slide after slide. */
  function AllParagraphs(slides: seq<Fragment>): seq<string> {
    if slides == [] then [] else Paragraphs(slides[0]) + AllParagraphs(slides[1..])
  }

  lemma ListSlideMeasures(lead: Fragment, run: seq<string>)
    requires Items(lead) == [] && Paragraphs(lead) == []
    ensures Items(lead + [List(run)]) == run
    ensures Paragraphs(lead + [List(run)]) == []
  {
    AppendFacts(lead, [List(run)]);
    assert Items([List(run)]) == run + Items([]);
  }

  lemma {:induction false} ListSlidesItems(lead: Fragment, runs: seq<seq<string>>)
    requires Items(lead) == [] && Paragraphs(lead) == []
    ensures AllItems(ListSlides(lead, runs)) == Flatten(runs)
    ensures AllParagraphs(ListSlides(lead, runs)) == []
  {
    if runs != [] {
      var slides := ListSlides(lead, runs);
      assert slides[1..] == ListSlides(lead, runs[1..]);
      ListSlidesItems(lead, runs[1..]);
      ListSlideMeasures(lead, runs[0]);
    }
  }

  /**
   * Splitting by list keeps every item, in order, and drops everything else
   * but the lead: one slide per eight items rounded up, each holding one to
   * eight items and all but the last exactly eight, and no paragraph.
   */
  lemma ByListFacts(f: Fragment)
    ensures AllItems(ByList(f)) == Items(f)
    ensures AllParagraphs(ByList(f)) == []
    ensures |ByList(f)| == (|Items(f)| + 7) / 8
    ensures forall k :: 0 <= k < |ByList(f)| ==> 1 <= Analyze(ByList(f)[k]).items <= MaxItems
    ensures forall k :: 0 <= k < |ByList(f)| - 1 ==> Analyze(ByList(f)[k]).items == MaxItems
    ensures forall k :: 0 <= k < |ByList(f)| ==> Lead(ByList(f)[k]) == Lead(f)
  {
    var lead, runs := Lead(f), Chunks(Items(f), MaxItems);
    LeadFacts(f);
    ChunksFacts(Items(f), MaxItems);
    ChunksOfEight(Items(f));
    ListSlidesItems(lead, runs);
    forall k | 0 <= k < |runs| ensures Items(ByList(f)[k]) == runs[k] && Lead(ByList(f)[k]) == lead {
      ListSlideMeasures(lead, runs[k]);
      LeadAppend(lead, [List(runs[k])]);
      LeadOfLead(f);
    }
  }

  /** The lead is its own lead. */
  lemma LeadOfLead(f: Fragment)
    ensures Lead(Lead(f)) == Lead(f)
  {
    LeadFacts(f);
  }

  // ----------------------------------------------------------- by paragraph

  /** `(paragraphe.textContent || '').length`. */
  function ParagraphWeight(inner: string): nat {
    Units(StripTags(inner))
  }

  function Paras(group: seq<string>): Fragment {
    seq(|group|, k requires 0 <= k < |group| => Para(group[k]))
  }

  /** One slide per group of paragraphs: the lead, then the paragraphs. */
  function ParagraphSlides(lead: Fragment, groups: seq<seq<string>>): seq<Fragment> {
    seq(|groups|, k requires 0 <= k < |groups| => lead + Paras(groups[k]))
  }

  /** What `redecouperParParagraphes` returns: the paragraphs packed 800 characters at a time, or the slide itself when it has none. */
  function ByParagraph(f: Fragment): seq<Fragment> {
    var groups := Pack(Paragraphs(f), ParagraphWeight, MaxCharacters);
    if groups == [] then [f] else ParagraphSlides(Lead(f), groups)
  }

  /** `redecouperParParagraphes(analyse)`. */
  method SplitByParagraph(f: Fragment) returns (slides: seq<Fragment>)
    ensures slides == ByParagraph(f)
  {
    var lead := Lead(f);
    var paragraphs := Paragraphs(f);
    var built := PackInto(paragraphs, ParagraphWeight, MaxCharacters, (group: seq<string>) => lead + Paras(group));
    ParagraphSlidesEach(lead, Pack(paragraphs, ParagraphWeight, MaxCharacters));
    slides := if |built| > 0 then built else [f];
  }

  lemma ParagraphSlidesEach(lead: Fragment, groups: seq<seq<string>>)
    ensures Each(groups, (group: seq<string>) => lead + Paras(group)) == ParagraphSlides(lead, groups)
  {
  }

  lemma ParagraphSlideMeasures(lead: Fragment, group: seq<string>)
    requires Items(lead) == [] && Paragraphs(lead) == []
    ensures Paragraphs(lead + Paras(group)) == group
    ensures Items(lead + Paras(group)) == []
    ensures Lead(lead + Paras(group)) == Lead(lead)
  {
    AppendFacts(lead, Paras(group));
    ParasMeasures(group);
    LeadAppend(lead, Paras(group));
  }

  lemma {:induction false} ParasMeasures(group: seq<string>)
    ensures Paragraphs(Paras(group)) == group
    ensures Items(Paras(group)) == []
    ensures Lead(Paras(group)) == []
  {
    if group != [] {
      assert Paras(group)[1..] == Paras(group[1..]);
      ParasMeasures(group[1..]);
    }
  }

  lemma {:induction false} ParagraphSlidesParagraphs(lead: Fragment, groups: seq<seq<string>>)
    requires Items(lead) == [] && Paragraphs(lead) == []
    ensures AllParagraphs(ParagraphSlides(lead, groups)) == Flatten(groups)
    ensures AllItems(ParagraphSlides(lead, groups)) == []
  {
    if groups != [] {
      assert ParagraphSlides(lead, groups)[1..] == ParagraphSlides(lead, groups[1..]);
      ParagraphSlidesParagraphs(lead, groups[1..]);
      ParagraphSlideMeasures(lead, groups[0]);
    }
  }

  /**
   * Splitting by paragraph keeps every paragraph, in order, and drops the
   * lists: each slide holds at least one paragraph, two or more only when
   * their text stays within 800 characters, and a slide is closed only when
   * the next paragraph would take it over.
   */
  lemma ByParagraphFacts(f: Fragment)
    requires Paragraphs(f) != []
    ensures AllParagraphs(ByParagraph(f)) == Paragraphs(f)
    ensures AllItems(ByParagraph(f)) == []
    ensures forall k :: 0 <= k < |ByParagraph(f)| ==> Paragraphs(ByParagraph(f)[k]) != []
    ensures forall k :: 0 <= k < |ByParagraph(f)| && |Paragraphs(ByParagraph(f)[k])| >= 2 ==>
      Sum(Paragraphs(ByParagraph(f)[k]), ParagraphWeight) <= MaxCharacters
    ensures forall k :: 0 <= k < |ByParagraph(f)| - 1 ==>
      Sum(Paragraphs(ByParagraph(f)[k]), ParagraphWeight) + ParagraphWeight(Paragraphs(ByParagraph(f)[k + 1])[0]) > MaxCharacters
    ensures forall k :: 0 <= k < |ByParagraph(f)| ==> Lead(ByParagraph(f)[k]) == Lead(f)
  {
    var lead, groups := Lead(f), Pack(Paragraphs(f), ParagraphWeight, MaxCharacters);
    LeadFacts(f);
    LeadOfLead(f);
    PackFacts(Paragraphs(f), ParagraphWeight, MaxCharacters);
    ParagraphSlidesParagraphs(lead, groups);
    forall k | 0 <= k < |groups| ensures Paragraphs(ByParagraph(f)[k]) == groups[k] && Lead(ByParagraph(f)[k]) == lead {
      ParagraphSlideMeasures(lead, groups[k]);
    }
  }

  // ------------------------------------------------------------ by sentence

  /** One slide per group of sentences: the lead, then one paragraph of the sentences joined with spaces. */
  function SentenceSlides(lead: Fragment, groups: seq<seq<string>>): seq<Fragment> {
    seq(|groups|, k requires 0 <= k < |groups| => lead + [Para(Join(groups[k], " "))])
  }

  /** What `redecouperParPhrasesLogiques` returns: the sentences of the whole text packed 800 characters at a time. */
  function BySentence(f: Fragment): seq<Fragment> {
    var groups := Pack(Phrases(Text(f)), Units, MaxCharacters);
    if groups == [] then [f] else SentenceSlides(Lead(f), groups)
  }

  /** `redecouperParPhrasesLogiques(analyse)`. */
  method SplitBySentence(f: Fragment) returns (slides: seq<Fragment>)
    ensures slides == BySentence(f)
  {
    var lead := Lead(f);
    var phrases := Phrases(Text(f));
    var built := PackInto(phrases, Units, MaxCharacters, (group: seq<string>) => lead + [Para(Join(group, " "))]);
    SentenceSlidesEach(lead, Pack(phrases, Units, MaxCharacters));
    slides := if |built| > 0 then built else [f];
  }

  lemma SentenceSlidesEach(lead: Fragment, groups: seq<seq<string>>)
    ensures Each(groups, (group: seq<string>) => lead + [Para(Join(group, " "))]) == SentenceSlides(lead, groups)
  {
  }

  /** Joining with spaces adds no visible character. */
  lemma {:induction false} VisibleJoin(parts: seq<string>)
    ensures Visible(Join(parts, " ")) == Visible(Concat(parts))
  {
    if |parts| > 1 {
      VisibleJoin(parts[1..]);
      VisibleAppend(parts[0] + " ", Join(parts[1..], " "));
      VisibleAppend(parts[0], " ");
      assert Visible(" ") == [];
      VisibleAppend(parts[0], Concat(parts[1..]));
    } else if |parts| == 1 {
      assert parts[1..] == [];
      assert Concat(parts) == parts[0] + Concat(parts[1..]);
      assert Concat(parts) == parts[0];
    }
  }

  /** The paragraph each sentence slide carries. */
  function Carried(slides: seq<Fragment>): seq<string> {
    if slides == [] then []
    else (if Paragraphs(slides[0]) == [] then [] else [Paragraphs(slides[0])[0]]) + Carried(slides[1..])
  }

  lemma SentenceSlideMeasures(lead: Fragment, group: seq<string>)
    requires Items(lead) == [] && Paragraphs(lead) == []
    ensures Paragraphs(lead + [Para(Join(group, " "))]) == [Join(group, " ")]
    ensures Items(lead + [Para(Join(group, " "))]) == []
    ensures Lead(lead + [Para(Join(group, " "))]) == Lead(lead)
  {
    var p := [Para(Join(group, " "))];
    AppendFacts(lead, p);
    LeadAppend(lead, p);
    assert Paragraphs(p) == [Join(group, " ")] + Paragraphs([]);
  }

  lemma {:induction false} SentenceSlidesText(lead: Fragment, groups: seq<seq<string>>)
    requires Items(lead) == [] && Paragraphs(lead) == []
    ensures Visible(Concat(Carried(SentenceSlides(lead, groups)))) == Visible(Concat(Flatten(groups)))
  {
    if groups != [] {
      var slides := SentenceSlides(lead, groups);
      assert slides[1..] == SentenceSlides(lead, groups[1..]);
      SentenceSlidesText(lead, groups[1..]);
      SentenceSlideMeasures(lead, groups[0]);
      var rest := Concat(Carried(slides[1..]));
      assert Concat(Carried(slides)) == Join(groups[0], " ") + rest;
      VisibleAppend(Join(groups[0], " "), rest);
      VisibleJoin(groups[0]);
      ConcatAppend(groups[0], Flatten(groups[1..]));
      ConcatFlatten(groups);
      VisibleAppend(Concat(groups[0]), Concat(Flatten(groups[1..])));
    }
  }

  lemma ConcatFlatten(groups: seq<seq<string>>)
    requires groups != []
    ensures Flatten(groups) == groups[0] + Flatten(groups[1..])
  {
  }

  /** Non-blank text has at least one sentence. */
  lemma SentencesOfText(text: string)
    requires Trim(text) != []
    ensures Phrases(text) != []
  {
    SentencesKeepText(text);
    BlankIff(text);
    var i :| 0 <= i < |text| && !IsSpace(text[i]);
    VisibleHasChar(text, i);
  }

  /**
   * Splitting by sentence, on a slide whose text is not blank, gives slides
   * of one paragraph each that together carry every visible character of the
   * slide's text, headings and list items included, in order.
   */
  lemma BySentenceFacts(f: Fragment)
    requires Trim(Text(f)) != []
    ensures forall k :: 0 <= k < |BySentence(f)| ==> |Paragraphs(BySentence(f)[k])| == 1
    ensures forall k :: 0 <= k < |BySentence(f)| ==> Items(BySentence(f)[k]) == []
    ensures forall k :: 0 <= k < |BySentence(f)| ==> Lead(BySentence(f)[k]) == Lead(f)
    ensures Visible(Concat(Carried(BySentence(f)))) == Visible(Text(f))
  {
    var lead, phrases := Lead(f), Phrases(Text(f));
    var groups := Pack(phrases, Units, MaxCharacters);
    LeadFacts(f);
    LeadOfLead(f);
    SentencesOfText(Text(f));
    PackFacts(phrases, Units, MaxCharacters);
    SentenceSlidesText(lead, groups);
    SentencesKeepText(Text(f));
    forall k | 0 <= k < |groups|
      ensures |Paragraphs(BySentence(f)[k])| == 1 && Items(BySentence(f)[k]) == [] && Lead(BySentence(f)[k]) == lead
    {
      SentenceSlideMeasures(lead, groups[k]);
    }
  }

  /**
   * Splitting by sentence, on a slide whose text is not blank, gives one
   * slide per group of sentences: the lead followed by the group joined with
   * spaces as one paragraph. In a group of two or more pieces of the split,
   * the pieces' lengths add up to at most 800; the joining spaces are not
   * counted, as in the source.
   */
  lemma BySentenceGroups(f: Fragment)
    requires Trim(Text(f)) != []
    ensures var groups := Pack(Phrases(Text(f)), Units, MaxCharacters);
      |BySentence(f)| == |groups|
      && (forall k :: 0 <= k < |groups| ==> BySentence(f)[k] == Lead(f) + [Para(Join(groups[k], " "))])
      && (forall k :: 0 <= k < |groups| && |groups[k]| >= 2 ==> Sum(groups[k], Units) <= MaxCharacters)
  {
    var phrases := Phrases(Text(f));
    SentencesOfText(Text(f));
    PackFacts(phrases, Units, MaxCharacters);
  }

}
