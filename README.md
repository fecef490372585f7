# drane-slider: Markdown to slides, and the slide optimiser

This project is a Dafny model of the two stages of drane-slider that turn a
Markdown document into the HTML slides of a Reveal.js presentation.

## The two stages

**The parser (`parseurMarkdown.js`)** works through the document in order:

- It cleans the document: tags are stripped, separator lines are normalised, and the result is trimmed.
- It cuts the document into slides. It cuts at `---` separators, or else in front of every `## ` heading.
- Each slide is trimmed, then:
  - headings, bold and italic text, inline code and links are rewritten by their regular expressions;
  - the lines are grouped into lists and paragraphs.

**The optimiser (`optimisateurSlides.js`)** measures each slide's HTML:

- its characters;
- its non-blank lines;
- its headings, paragraphs and list items.

A slide over the limits is re-split, using the first strategy that applies:

- by list items, eight at a time;
- by paragraphs, packed up to 800 characters;
- by sentences, packed up to 800 characters.

Every resulting slide is wrapped in a `div`. The `div`'s class sets a font size from the slide's density.

`assets/js/app.js` joins the two stages: the optimiser is fed the parser's output.

## How the model is organised

Each kind of source code maps to its own Dafny form:

- **Regular-expression rewrites:** written as pure functions over `string` (`seq<char>`), one scanner per expression. The JavaScript semantics are written out exactly:
  - `\s` and `trim`;
  - the line terminators that `.` and the `m`-flag `^`/`$` use;
  - the leftmost, lazy or greedy choice each expression makes;
  - the way `String.prototype.replace` with the `g` flag resumes after a match, and moves one character on after a failure.
- **Loops** (`traiterListes`, the three re-splitting strategies, `optimiserToutesSlides`): written as methods with `while` loops. Each method is proved equal to a specification function, and the properties are proved about that function.
- **HTML read by the optimiser:** as a structural `Fragment`, a sequence of heading, paragraph, list and loose-markup nodes. Its markup is exactly the parser's string (`Pipeline.SlideFragmentsAre`). Its text content is the text of its nodes; when every `<` inside a node is followed later by a `>`, that is the markup with its `<…>` spans deleted (`Fragments.TextIsStrippedHtml`). The ways a browser is known to read the same markup differently are listed under "Left out"; that list is not claimed to be complete.
- **Definitions without a row of their own:** some functions are the rule itself, and what they mean is stated by the lemmas about them in the table below:
  - `Sanitize.RuleLine` is the rule-line rewrite of one line;
  - `Headings.HeadingLine` is one heading pass on one line;
  - `Lists.FormatLine` is `formaterLigneNonListe`;
  - `Optimizer.Resplit` and `Optimizer.Optimize` are the decision chains of `redecouperSlideIntelligente` and `optimiserSlide`;
  - `Segments.Segment` is `separerEnSlides`, and `Parser.ParseSlides` is `parserMarkdownEnSlides`;
  - `Parser.SlideHtml` is `traiterSlide`, and `Parser.Rewrite` is its whole-text rules before the list pass;
  - `Headings.Headings` is `convertirTitres`;
  - `Inline.Formatting` is `convertirFormatageTexte`, and `Inline.Code` and `Inline.Links` are the replacements `convertirCode` and `convertirLiens` make;
  - `Lists.IsListLine`, `Lists.ListContent` and `Lists.ListsHtml` are `estLigneDeListe`, `extraireContenuListe` and what `traiterListes` returns;
  - `Fragments.Analyze` is `analyserContenuSlide`, and `Fragments.Text` is the `textContent` it measures;
  - `Splitters.ByList`, `Splitters.ByParagraph` and `Splitters.BySentence` are what `redecouperParListes`, `redecouperParParagraphes` and `redecouperParPhrasesLogiques` return;
  - `Optimizer.SizeClass` is `calculerTaillePolice`, `Optimizer.Wrap` is the `div` each new slide is wrapped in with its size class, and `Optimizer.Optimized` is what `optimiserToutesSlides` returns;
  - `Pipeline.Presentation` is what `genererPresentation` hands on: the parsed slides, optimised.
- **String lengths:** UTF-16 code units (`JsText.Units`), as `.length` counts them.

The modules:

| module | what it holds |
|---|---|
| `JsText` | JavaScript string primitives |
| `Lines` | `^…$` rules applied line by line |
| `Markup` | tag stripping |
| `Sanitize` | `nettoyerMarkdown` |
| `Segments` | `separerEnSlides` |
| `Headings` | `convertirTitres` |
| `Inline` | `convertirFormatageTexte`, `convertirCode`, `convertirLiens` |
| `Lists` | `traiterListes` and its helpers |
| `Parser` | `traiterSlide` and `parserMarkdownEnSlides` |
| `Fragments` | `analyserContenuSlide` |
| `Packing` | the greedy accumulator shared by the paragraph and sentence splits, and the eight-at-a-time chunking |
| `Sentences` | the sentence split |
| `Splitters` | the three strategies |
| `Optimizer` | `estSlideOptimale`, `optimiserSlide`, `redecouperSlideIntelligente`, `calculerTaillePolice`, `optimiserToutesSlides` |
| `Pipeline` | `genererPresentation`'s chaining of the two stages |

## Model

| member | source | states |
|---|---|---|
| JsText.Trim | assets/js/modules/parseurMarkdown.js:31 | `trim` returns the infix of the input left once white space at both ends is removed; what is removed is all white space, and the result neither starts nor ends with white space |
| JsText.BlankIff | assets/js/modules/parseurMarkdown.js:42 | a piece is dropped by `.filter(s => s.trim())` exactly when it is all white space |
| JsText.Split | assets/js/modules/parseurMarkdown.js:118 | `split('\n')` gives at least one piece, no piece holds the separator, and joining the pieces with it gives the text back |
| JsText.SplitJoin | assets/js/modules/parseurMarkdown.js:118 | splitting undoes joining when no piece holds the separator |
| JsText.Units | assets/js/modules/optimisateurSlides.js:65 | `.length` counts between one and two code units per character |
| JsText.IndexOfFirst | assets/js/modules/parseurMarkdown.js:99 | the first-occurrence search finds the leftmost occurrence, and finds none exactly when the character is absent |
| Markup.StripTagsClean | assets/js/modules/parseurMarkdown.js:29 | after `.replace(/<[^>]*>/g, '')` no `<` is followed by a `>` |
| Markup.StripTagsPrefix | assets/js/modules/parseurMarkdown.js:29 | text before the first `<` is kept as it is |
| Markup.StripTagsSpan | assets/js/modules/parseurMarkdown.js:29 | a span from `<` to the next `>` is deleted whole |
| Markup.StripTagsIdentity | assets/js/modules/parseurMarkdown.js:29 | text with no tag span is left unchanged |
| Markup.StripTagsIdempotent | assets/js/modules/parseurMarkdown.js:29 | stripping twice is the same as stripping once |
| Markup.StripTagsFrom | assets/js/modules/parseurMarkdown.js:29 | stripping adds no character: every kept character comes from the input |
| Markup.HasCloseIff | assets/js/modules/parseurMarkdown.js:29 | `<[^>]*>` can complete exactly when a `>` follows |
| Sanitize.RuleLineBecomesSeparator | assets/js/modules/parseurMarkdown.js:30 | a whole rule line inside a text becomes the separator, and the text on either side is normalised on its own |
| Sanitize.NormaliseWithoutRules | assets/js/modules/parseurMarkdown.js:30 | text without a rule line is left unchanged |
| Sanitize.NormalisePreservesNoTagSpan | assets/js/modules/parseurMarkdown.js:29-30 | normalising separators creates no tag span in stripped text |
| Sanitize.Clean | assets/js/modules/parseurMarkdown.js:27-32 | the cleaned document holds no tag span and neither starts nor ends with white space |
| Segments.SplitOn | assets/js/modules/parseurMarkdown.js:42 | `split(/\n---\n/)` gives at least one piece, no piece holds the separator, and joining the pieces with it gives the text back |
| Segments.Find | assets/js/modules/parseurMarkdown.js:42 | the separator search finds its leftmost occurrence, and finds none exactly when there is none |
| Segments.SplitBeforeH2 | assets/js/modules/parseurMarkdown.js:46 | the lookahead split removes nothing: the pieces, concatenated, give the text |
| Segments.NextH2 | assets/js/modules/parseurMarkdown.js:46 | the next cut point found is the first position where a newline, `##` and white space follow |
| Segments.SplitBeforeH2Cuts | assets/js/modules/parseurMarkdown.js:46 | every later piece starts with `\n##` followed by white space or by its end; read on its own, no piece has a cut point past its first position |
| Segments.SplitBeforeH2Starts | assets/js/modules/parseurMarkdown.js:46 | the k-th later piece starts at the offset where the first k pieces end, and an offset past the first of the text starts a piece exactly when a newline, `##` and a white-space character follow there: the split cuts at every such position and nowhere else |
| Segments.NoCutBeforeH3 | assets/js/modules/parseurMarkdown.js:46 | the lookahead never cuts in front of a `###` line |
| Segments.SegmentShape | assets/js/modules/parseurMarkdown.js:40-50 | no slide is blank; the heading fallback is taken exactly when the separator split leaves one non-blank slide |
| Segments.SegmentBlank | assets/js/modules/parseurMarkdown.js:40-50 | blank text gives no slide |
| Segments.SegmentKeepsText | assets/js/modules/parseurMarkdown.js:40-50 | without a separator, the slides hold every visible character of the text, in order |
| Segments.SegmentNotEmpty | assets/js/modules/parseurMarkdown.js:40-50 | non-blank text without a separator gives at least one slide |
| Headings.Marker | assets/js/modules/parseurMarkdown.js:77-79 | the marker of a level-n heading is n `#` followed by a space |
| Headings.HeadingsByLine | assets/js/modules/parseurMarkdown.js:75-80 | the three passes over the text act as one combined rule applied to each line |
| Headings.TagLineStays | assets/js/modules/parseurMarkdown.js:77-79 | a line already rewritten by one pass is not touched by another |
| Headings.HeadingLineConverted | assets/js/modules/parseurMarkdown.js:75-80 | a line of n `#`, a space and non-empty content becomes exactly its level-n element |
| Headings.H1SkipsH2Line | assets/js/modules/parseurMarkdown.js:77 | the `# ` rule does not fire on a `##` line |
| Headings.PlainLineStays | assets/js/modules/parseurMarkdown.js:75-80 | a line not starting with `#` is unchanged |
| Headings.LineInText | assets/js/modules/parseurMarkdown.js:75-80 | inside a text, each line is converted in place, independently of the text around it |
| Headings.HeadingInText | assets/js/modules/parseurMarkdown.js:75-80 | a heading line anywhere in a text becomes its element, and the rest of the text is converted on its own |
| Inline.LazyClose | assets/js/modules/parseurMarkdown.js:89-90 | the lazy `.+?` body ends at the first closing delimiter after at least one character; none comes earlier |
| Inline.ReplaceAllPrefix | assets/js/modules/parseurMarkdown.js:87-109 | `replace(/…/g)` copies unchanged any prefix that lacks the character each match starts with |
| Inline.ReplaceAllUnchanged | assets/js/modules/parseurMarkdown.js:87-109 | `replace(/…/g)` leaves unchanged a text with no match at any position |
| Inline.EmphasisRule | assets/js/modules/parseurMarkdown.js:89-90 | a bold or italic match consumes at least one character, never more than the text, and starts with the delimiter |
| Inline.EmphasisPair | assets/js/modules/parseurMarkdown.js:89-90 | a delimited single-line body, with no delimiter character before or inside it, becomes the element, and scanning resumes after it |
| Inline.EmphasisPrefix | assets/js/modules/parseurMarkdown.js:89-90 | text before the first delimiter character is copied unchanged |
| Inline.EmphasisNoDelimiter | assets/js/modules/parseurMarkdown.js:89-90 | text without the delimiter character is unchanged |
| Inline.NoStarInStrong | assets/js/modules/parseurMarkdown.js:89-90 | the bold rewrite leaves no `*` for the italic pass |
| Inline.BoldBeforeItalic | assets/js/modules/parseurMarkdown.js:87-91 | `**m**` becomes `<strong>m</strong>`, and then no `em` |
| Inline.LoneStarNoMatch | assets/js/modules/parseurMarkdown.js:90 | a `*` with no other `*` after it starts no italic match |
| Inline.LoneStarLiteral | assets/js/modules/parseurMarkdown.js:90 | a text with at most one `*` is unchanged by the italic pass |
| Inline.CodeRule | assets/js/modules/parseurMarkdown.js:99 | a code match consumes at least one character and starts with a backtick |
| Inline.CodePair | assets/js/modules/parseurMarkdown.js:98-100 | a non-empty run without backticks, between backticks, becomes `<code>…</code>` |
| Inline.CodePrefix | assets/js/modules/parseurMarkdown.js:99 | text before the first backtick is copied unchanged |
| Inline.EmptyCodeLiteral | assets/js/modules/parseurMarkdown.js:99 | an empty pair of backticks stays literal |
| Inline.CodeNone | assets/js/modules/parseurMarkdown.js:99 | text without a backtick is unchanged |
| Inline.LinkMatch | assets/js/modules/parseurMarkdown.js:108 | a link match has a non-empty caption and address, and ends within the text |
| Inline.LinkRule | assets/js/modules/parseurMarkdown.js:108 | a link match consumes at least one character and starts with `[` |
| Inline.LinkMatchShape | assets/js/modules/parseurMarkdown.js:108 | in `[l](u)…` the caption ends at the first `]`, and the match ends at the first `)` |
| Inline.LinkPair | assets/js/modules/parseurMarkdown.js:107-109 | `[l](u)` becomes `<a href="u" target="_blank">l</a>`, and scanning resumes after it |
| Inline.LinksPrefix | assets/js/modules/parseurMarkdown.js:108 | text before the first `[` is copied unchanged |
| Inline.LinksNone | assets/js/modules/parseurMarkdown.js:108 | text without `[` is unchanged |
| Lists.DigitRun | assets/js/modules/parseurMarkdown.js:164 | the leading run of digits is maximal |
| Lists.BulletContent | assets/js/modules/parseurMarkdown.js:163-174 | a bullet, spaces and content gives that content as the item |
| Lists.NumberedContent | assets/js/modules/parseurMarkdown.js:163-174 | digits, a dot, spaces and content give that content as the item |
| Lists.ListItems | assets/js/modules/parseurMarkdown.js:134 | there is one `<li>` per collected content, in order |
| Lists.TreatLine | assets/js/modules/parseurMarkdown.js:124-147 | one loop turn: a list line extends the open list; any other line closes it and emits itself unless blank |
| Lists.TreatLines | assets/js/modules/parseurMarkdown.js:118-153 | the loop emits exactly the rendered pieces of the grouping of the lines |
| Lists.TreatLists | assets/js/modules/parseurMarkdown.js:117-156 | `traiterListes` equals the rendered grouping joined with newlines |
| Lists.GroupFacts | assets/js/modules/parseurMarkdown.js:117-156 | the grouping keeps every list item's content and every non-blank other line, in order; it has one list per maximal run of list lines; no list is empty |
| Lists.RunContents | assets/js/modules/parseurMarkdown.js:123-134 | over a run of list lines, the collected contents are one per line, in line order |
| Lists.GroupRun | assets/js/modules/parseurMarkdown.js:117-156 | a non-empty run of list lines ended by another line becomes one list holding exactly the run's items, then what the ending line emits, then the grouping of the rest |
| Lists.GroupFinalRun | assets/js/modules/parseurMarkdown.js:148-153 | a run of list lines at the end of the slide becomes one list holding exactly its items |
| Lists.GroupOtherLine | assets/js/modules/parseurMarkdown.js:136-146 | a line that is not a list line, with no list open, emits itself formatted in place, or nothing when blank |
| Lists.BlankLineEmitsNothing | assets/js/modules/parseurMarkdown.js:136-146 | a blank line only closes an open list |
| Parser.ParseBlank | assets/js/modules/parseurMarkdown.js:11-20 | blank markdown gives no slide |
| Parser.NormaliseBlank | assets/js/modules/parseurMarkdown.js:30 | blank text has no rule line, so normalisation keeps it |
| Parser.OneLineLists | assets/js/modules/parseurMarkdown.js:117-156 | a trimmed one-line text that is not a list line gives one formatted line |
| Parser.InlineUntouched | assets/js/modules/parseurMarkdown.js:62-64 | the inline rules leave unchanged a text without `*`, backticks and `[` |
| Parser.PlainLineSlide | assets/js/modules/parseurMarkdown.js:57-68 | a one-line slide free of markers becomes one paragraph |
| Parser.HeadingRewritten | assets/js/modules/parseurMarkdown.js:58-61 | a trimmed one-line heading slide becomes its element |
| Parser.HeadingElementShape | assets/js/modules/parseurMarkdown.js:61-67 | a heading element passes the inline rules unchanged and is not a list line |
| Parser.HeadingSlide | assets/js/modules/parseurMarkdown.js:57-68 | a one-line heading slide becomes that heading element and nothing else |
| Fragments.FirstHeading | assets/js/modules/optimisateurSlides.js:153-155 | the principal title is the first heading, if there is one |
| Fragments.AppendFacts | assets/js/modules/optimisateurSlides.js:58-64 | markup, text, paragraphs, items and heading count of two fragments side by side add up |
| Fragments.LeadFacts | assets/js/modules/optimisateurSlides.js:153-155 | the title prefix is empty or one heading, is empty exactly when there is no heading, and brings no paragraph and no item |
| Fragments.CharactersIffLines | assets/js/modules/optimisateurSlides.js:64-66 | a slide has no character to count exactly when it has no non-blank line |
| Fragments.TextIsStrippedHtml | assets/js/modules/optimisateurSlides.js:64 | for well-formed fragments, `textContent` is the markup with its tags deleted |
| Optimizer.OptimalIff | assets/js/modules/optimisateurSlides.js:93-111 | a slide is optimal exactly when it has at most 800 characters, at most 8 items and at most 15 lines |
| Optimizer.OptimalAtLimit | assets/js/modules/optimisateurSlides.js:96 | the character limit is inclusive: 800 passes and 801 fails |
| Optimizer.ResplitSlide | assets/js/modules/optimisateurSlides.js:120-140 | the method returns what the strategy order prescribes |
| Optimizer.OptimizeSlide | assets/js/modules/optimisateurSlides.js:34-45 | an optimal slide is kept; any other is re-split |
| Optimizer.OptimizeNonEmpty | assets/js/modules/optimisateurSlides.js:34-45 | optimising a slide always gives at least one slide |
| Optimizer.KeptWrapped | assets/js/modules/optimisateurSlides.js:300-309 | an optimal slide is emitted once, wrapped |
| Optimizer.ListCase | assets/js/modules/optimisateurSlides.js:124-126 | with more than 8 items the slide becomes ⌈items/8⌉ ≥ 2 slides; each keeps the title and 1 to 8 items; all items are kept in order; paragraphs are dropped |
| Optimizer.ParagraphCase | assets/js/modules/optimisateurSlides.js:129-131 | with more than four paragraphs they are packed under the title; all are kept in order; no slide is empty; a slide with two or more stays within 800 characters |
| Optimizer.SentenceCase | assets/js/modules/optimisateurSlides.js:134-136 | a long text with at most two paragraphs becomes one-paragraph slides under the title, carrying every visible character in order |
| Optimizer.LongTextNotBlank | assets/js/modules/optimisateurSlides.js:134 | more than 800 characters means the text is not blank |
| Optimizer.SentenceGroups | assets/js/modules/optimisateurSlides.js:234-261 | non-blank text has sentences, so the sentence split's fallback never applies |
| Optimizer.KeptOverLimit | assets/js/modules/optimisateurSlides.js:93-139 | a slide over the line limit alone with at most four paragraphs, or over the character limit with three or four paragraphs, fails the check and still comes back unchanged |
| Optimizer.SizeClassByDensity | assets/js/modules/optimisateurSlides.js:269-285 | the class thresholds 0.9, 0.7 and 0.3 on the score are 1440, 1120 and 480 on characters plus 80 per element |
| Optimizer.SizeClassMonotone | assets/js/modules/optimisateurSlides.js:269-285 | a denser slide never gets a larger font |
| Optimizer.OptimizeAll | assets/js/modules/optimisateurSlides.js:292-314 | the loop returns every slide's new slides, in order, each wrapped |
| Optimizer.OptimizedIsWrapped | assets/js/modules/optimisateurSlides.js:292-314 | the output is the flattening of every slide's optimisation, each wrapped in a `div` with its size class |
| Optimizer.OptimizedAppend | assets/js/modules/optimisateurSlides.js:295-311 | slides are optimised independently: a concatenation gives the concatenation |
| Optimizer.OptimizedCount | assets/js/modules/optimisateurSlides.js:292-314 | there are never fewer slides out than in |
| Optimizer.OptimizedAllOptimal | assets/js/modules/optimisateurSlides.js:292-314 | when every slide is already optimal, each is kept and only wrapped |
| Packing.ChunksFacts | assets/js/modules/optimisateurSlides.js:158-175 | the runs concatenate back to the items; each run holds 1 to n items, and all but the last exactly n |
| Packing.ChunksOfEight | assets/js/modules/optimisateurSlides.js:158-175 | eight at a time gives ⌈items/8⌉ runs |
| Packing.PackInto | assets/js/modules/optimisateurSlides.js:195-214 | the greedy accumulator loop emits one slide per group of the greedy packing, in order |
| Packing.PackFacts | assets/js/modules/optimisateurSlides.js:195-214 | greedy packing keeps every piece in order and leaves no group empty; a group of two or more is within the limit; a group closes only when the next piece would overflow it |
| Packing.HeavyPieceAlone | assets/js/modules/optimisateurSlides.js:199 | a piece heavier than the limit gets a group of its own |
| Packing.PackAllFit | assets/js/modules/optimisateurSlides.js:199 | pieces that fit together under the limit form one group |
| Splitters.SplitByList | assets/js/modules/optimisateurSlides.js:147-178 | the loop gives the title plus a list of each run of eight items |
| Splitters.ByListFacts | assets/js/modules/optimisateurSlides.js:147-178 | all items are kept in order; there are ⌈items/8⌉ slides with 1 to 8 items each, all but the last exactly 8; the title is on each; nothing else is kept |
| Splitters.SplitByParagraph | assets/js/modules/optimisateurSlides.js:185-217 | the loop gives the greedy paragraph packing under the title, or the slide itself when it has no paragraph |
| Splitters.ByParagraphFacts | assets/js/modules/optimisateurSlides.js:185-217 | all paragraphs are kept in order and lists are dropped; each slide has at least one paragraph, two or more only within 800 characters, and closes only when the next would overflow it |
| Splitters.SplitBySentence | assets/js/modules/optimisateurSlides.js:224-262 | the loop gives the greedy sentence packing, each group joined with spaces in one paragraph, under the title |
| Splitters.BySentenceFacts | assets/js/modules/optimisateurSlides.js:224-262 | on non-blank text, each slide has one paragraph and no list item, carries the title, and the paragraphs carry every visible character in order |
| Splitters.BySentenceGroups | assets/js/modules/optimisateurSlides.js:224-262 | on non-blank text, there is one slide per group of sentences, holding the title and the group joined with spaces as its one paragraph; in a group of two or more pieces of the split, the pieces' lengths add up to at most 800 |
| Sentences.NextDelimiter | assets/js/modules/optimisateurSlides.js:234 | the next delimiter found is the leftmost position where `[.!?]+\s+` matches |
| Sentences.SplitSentencesConcat | assets/js/modules/optimisateurSlides.js:234 | the pieces of the capturing split, delimiters included, give the text back |
| Sentences.SplitSentencesDelimiters | assets/js/modules/optimisateurSlides.js:234 | every second piece of the split is a captured delimiter |
| Sentences.SentencesKeepText | assets/js/modules/optimisateurSlides.js:234 | dropping blank pieces keeps every visible character, in order |
| Sentences.DelimiterNotBlank | assets/js/modules/optimisateurSlides.js:234 | a delimiter holds a stop, so it is never filtered out |
| Sentences.NoDelimiterOneSentence | assets/js/modules/optimisateurSlides.js:234 | text without a delimiter is one sentence, or none when blank |
| Pipeline.LineNode | assets/js/modules/optimisateurSlides.js:54-55 | reading a rendered line as an element loses no markup |
| Pipeline.FormattedLineRead | assets/js/modules/parseurMarkdown.js:190-198 | a line that `formaterLigneNonListe` wraps is read back by the optimiser as one paragraph whose content is that line |
| Pipeline.FormattedHeadingRead | assets/js/modules/parseurMarkdown.js:190-198 | a heading element passes `formaterLigneNonListe` unchanged and is read back as that heading |
| Pipeline.ToFragmentHtml | assets/js/modules/optimisateurSlides.js:54-55 | the fragment read from the parser's pieces has exactly the parser's markup |
| Pipeline.SlideFragmentsAre | assets/js/app.js:217-222 | there is one fragment per parsed slide, in order, each with that slide's markup |
| Pipeline.Present | assets/js/app.js:217-222 | the presentation is the optimisation of the parsed slides |
| Pipeline.PresentationCount | assets/js/app.js:217-222 | the optimised presentation never has fewer slides than the parser made |
| Pipeline.PresentationBlank | assets/js/app.js:217-222 | blank markdown gives an empty presentation |

## Left out

- The browser's HTML parser (`innerHTML`, `querySelectorAll`, `textContent`, `outerHTML`) is not modelled. The optimiser works on a structural fragment whose markup is the slide's string.
  - On that reading, `<` and `&` in text are taken literally: no entity decoding, and no markup recovery for a stray `<` that `nettoyerMarkdown` leaves before a missing `>`.
  - Sentence text placed back into a `<p>` is not escaped, as in the source.
- A re-split slide is analysed as the fragment the optimiser built. It is not re-parsed from its markup string.
- Fragments.TextIsStrippedHtml: its well-formedness requirement is not proved for every fragment the parser produces.
- Ways the browser reads the parser's markup differently from the model (the ones known, not an exhaustive list):
  - a `>` inside a link address: for `[a](x>y)` the model's tag deletion leaves `y" target="_blank">a`, while the browser's `textContent` is `a`;
  - `outerHTML` (`optimisateurSlides.js:154`, `159`, `194`, `207`) writes `&`, `<`, `>` and U+00A0 in text as `&amp;`, `&lt;`, `&gt;` and `&nbsp;`, while the model keeps the parser's string as it is, so a slide re-split by list or by paragraph differs there too;
  - a line break inside a link address: `[^\)]+` (`parseurMarkdown.js:108`) lets the address cross a `\n`, so `[a](x\ny)` becomes `<a href="x\ny" target="_blank">a</a>`, and `traiterListes` (`parseurMarkdown.js:118`) cuts it at the `\n`. The model reads the lines back as `[Para("<a href=\"x"), Loose("\n"), Para("y\" target=\"_blank\">a</a>")]`, with 2 paragraphs, 2 lines and the text `<a href="x`, `\n`, `y" target="_blank">a`. The browser finds the second `<p>` inside the quoted attribute, so it reads one `p` whose `textContent` is `a`. With list lines, as in `- [a](u` then `- v)`, the model counts 2 `li` where the browser counts 1. Either difference can change `estSlideOptimale` and the strategy chosen;
  - U+0000: the browser's parser drops it from text, while the model keeps and counts it;
  - `Pipeline.LineNode` reads a heading line that a bare carriage return or U+2028 continues inside the same `\n`-line as loose markup, while the browser still finds the heading. The browser's parser also turns a carriage return into a line feed, which can change the line count.
- Units: the model counts code units from the characters. Lone surrogates are not distinguished.
- `nombreMots` and `nombreListes` are computed by `analyserContenuSlide`, but no decision reads them. They are left out.
- `MOTS_COUPURE` and `RATIO_REMPLISSAGE_IDEAL` in the configuration are never used. They are left out.
- The `metadonnees` argument and the analysis at `optimisateurSlides.js:297` have no effect on the result. They are left out.
- Optimizer.Score: computed exactly over the reals instead of IEEE doubles. At the class thresholds the two can round differently.
- Console output, errors, the iframe and the HTML document that `app.js` builds are not modelled.
- The rest of the repository is not part of this model: the theme manager, the file manager, the presentation generator and the statistics.
- Behaviours of the source kept as written:
  - the list split drops every non-list element except the title;
  - the sentence split cuts the whole text content, headings and list items included;
  - sentences are joined with one space;
  - a slide over the line limit alone with at most four paragraphs, or over the character limit with three or four paragraphs, is not re-split.
