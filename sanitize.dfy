/**
 * `nettoyerMarkdown`: deletes every tag span, turns each line made only of
 * three or more `-` into the canonical separator `\n---\n`, and trims.
 */
module Sanitize {
  import opened JsText
  import opened Lines
  import opened Markup

  /** The canonical slide separator the segmentation splits on. */
  const Separator: string := "\n---\n"

  /** A whole line matching `^---+$`. */
  predicate IsRuleLine(line: string) {
    |line| >= 3 && forall i :: 0 <= i < |line| ==> line[i] == '-'
  }

  /** The line rule of `.replace(/^---+$/gm, '\n---\n')`. */
  function RuleLine(line: string): (r: string)
    ensures IsRuleLine(line) ==> r == Separator
    ensures !IsRuleLine(line) ==> r == line
  {
    if IsRuleLine(line) then Separator else line
  }

  function NormaliseSeparators(s: string): string {
    MapLines(s, RuleLine)
  }

  /** `nettoyerMarkdown(markdown)`. */
  function Clean(markdown: string): (r: string)
    ensures NoTagSpan(r)
    ensures r == [] || (!IsSpace(r[0]) && !IsSpace(r[|r| - 1]))
  {
    var stripped := StripTags(markdown);
    var normalised := NormaliseSeparators(stripped);
    StripTagsClean(markdown);
    NormalisePreservesNoTagSpan(stripped);
    var r := Trim(normalised);
    var k := |normalised| - |TrimStart(normalised)|;
    NoTagSpanInfix(normalised, k, k + |r|);
    r
  }

  /**
   * A line of three or more `-` becomes the canonical separator wherever it
   * stands, the text around it being normalised on its own.
   */
  lemma RuleLineBecomesSeparator(before: string, t1: char, line: string, t2: char, after: string)
    requires IsLineTerminator(t1) && IsLineTerminator(t2) && IsRuleLine(line)
    ensures NormaliseSeparators(before + [t1] + line + [t2] + after)
         == NormaliseSeparators(before) + [t1] + Separator + [t2] + NormaliseSeparators(after)
  {
    assert NoTerminator(line);
    MapLinesAround(before, t1, line, t2, after, RuleLine);
  }

  /** Text none of whose lines is made of three or more `-` only is left as it is by the normalisation. */
  lemma NormaliseWithoutRules(s: string)
    requires forall k :: 0 <= k < |LinesOf(s)| ==> !IsRuleLine(LinesOf(s)[k])
    ensures NormaliseSeparators(s) == s
  {
    MapLinesUnchanged(s, RuleLine);
  }

  /** The normalisation writes no `<` or `>`: the ones in its output come from its input. */
  lemma {:induction false} NormaliseKeepsAngles(s: string)
    ensures '<' in NormaliseSeparators(s) ==> '<' in s
    ensures '>' in NormaliseSeparators(s) ==> '>' in s
    decreases |s|
  {
    var i := LineEnd(s);
    if i < |s| {
      NormaliseKeepsAngles(s[i + 1..]);
      var out := RuleLine(s[..i]) + [s[i]] + NormaliseSeparators(s[i + 1..]);
      assert NormaliseSeparators(s) == out;
      forall c | c in out && (c == '<' || c == '>') ensures c in s {
        if c in RuleLine(s[..i]) {
          var x :| 0 <= x < i && s[..i][x] == c;
          assert s[x] == c;
        } else if c == s[i] {
        } else {
          assert c in NormaliseSeparators(s[i + 1..]);
          var x :| 0 <= x < |s| - i - 1 && s[i + 1..][x] == c;
          assert s[i + 1 + x] == c;
        }
      }
    } else {
      assert s[..i] == s;
    }
  }

  /**
   * One step of the normalisation keeps a text free of tag spans: the first
   * line, rewritten, writes no `<` it did not have, and the rest, normalised,
   * no `>` it did not have.
   */
  lemma NormaliseStep(line: string, t: char, rest: string, out: string)
    requires IsLineTerminator(t) && NoTagSpan(line + [t] + rest)
    requires NoTagSpan(out) && ('>' in out ==> '>' in rest)
    ensures NoTagSpan(RuleLine(line) + [t] + out)
  {
    Associative(line, [t], rest);
    NoTagSpanParts(line, [t] + rest);
    HeadTail([t], rest);
    var r := RuleLine(line);
    assert NoTagSpan(r) && ('<' in r ==> '<' in line);
    NoTagSpanJoin([t], out);
    HeadTail([t], out);
    NoTagSpanJoin(r, [t] + out);
    Associative(r, [t], out);
  }

  lemma {:induction false} NormalisePreservesNoTagSpan(s: string)
    requires NoTagSpan(s)
    ensures NoTagSpan(NormaliseSeparators(s))
    decreases |s|
  {
    var i := LineEnd(s);
    if i < |s| {
      var line, t, rest := s[..i], s[i], s[i + 1..];
      assert s == line + [t] + rest;
      NoTagSpanInfix(s, i + 1, |s|);
      NormalisePreservesNoTagSpan(rest);
      NormaliseKeepsAngles(rest);
      NormaliseStep(line, t, rest, NormaliseSeparators(rest));
      MapLinesCons(line, t, rest, RuleLine);
    } else {
      assert s[..i] == s;
    }
  }
}
