/**
 * The sentence cut of `redecouperParPhrasesLogiques`: `texte.split(/([.!?]+\s+)/)`.
 * The capturing group keeps each delimiter, a run of `.`, `!` or `?` and the
 * white space after it, as a piece of its own between the sentences.
 */
module Sentences {
  import opened JsText

  predicate IsStop(c: char) {
    c == '.' || c == '!' || c == '?'
  }

  /** Length of the run of `.`, `!` and `?` that starts `s`. */
  function StopRun(s: string): (n: nat)
    ensures n <= |s|
    ensures forall i :: 0 <= i < n ==> IsStop(s[i])
    ensures n < |s| ==> !IsStop(s[n])
  {
    if s == [] || !IsStop(s[0]) then 0 else 1 + StopRun(s[1..])
  }

  /**
   * `[.!?]+\s+` matches at `q`: the greedy run of stops from `q` is followed
   * by white space (backing off within the run leaves a stop, never a space,
   * next).
   */
  predicate DelimiterAt(s: string, q: nat) {
    q < |s| && IsStop(s[q]) && q + StopRun(s[q..]) < |s| && IsSpace(s[q + StopRun(s[q..])])
  }

  /** The first position at or after `q` where a delimiter starts, or `|s|`. */
  function NextDelimiter(s: string, q: nat): (r: nat)
    requires q <= |s|
    ensures q <= r <= |s|
    ensures r < |s| ==> DelimiterAt(s, r)
    ensures forall j :: q <= j < r ==> !DelimiterAt(s, j)
    decreases |s| - q
  {
    if q == |s| || DelimiterAt(s, q) then q else NextDelimiter(s, q + 1)
  }

  /** A captured delimiter: one or more stops, then white space only, at least one. */
  predicate IsDelimiter(d: string) {
    var n := StopRun(d);
    1 <= n < |d| && AllSpace(d[n..])
  }

  /**
   * The split: text, delimiter, text, …, text. The match is taken leftmost
   * and as long as the greedy quantifiers make it, and the search resumes
   * after it.
   */
  function SplitSentences(s: string): (parts: seq<string>)
    decreases |s|
  {
    var q := NextDelimiter(s, 0);
    if q == |s| then [s]
    else
      var e := DelimiterEnd(s, q);
      [s[..q], s[q..e]] + SplitSentences(s[e..])
  }

  /** Where the delimiter that starts at `q` ends: after the stops and all the white space that follows. */
  function DelimiterEnd(s: string, q: nat): (e: nat)
    requires DelimiterAt(s, q)
    ensures q < e <= |s| && IsDelimiter(s[q..e])
  {
    var r := q + StopRun(s[q..]);
    DelimiterShape(s, q, r, r + SpaceRun(s[r..]));
    r + SpaceRun(s[r..])
  }

  /** The split unfolded once, at the first delimiter. */
  lemma SplitAtFirst(s: string) returns (q: nat, e: nat)
    requires NextDelimiter(s, 0) < |s|
    ensures q < e <= |s| && IsDelimiter(s[q..e])
    ensures SplitSentences(s) == [s[..q], s[q..e]] + SplitSentences(s[e..])
  {
    q := NextDelimiter(s, 0);
    e := DelimiterEnd(s, q);
  }

  lemma ThreeSlices<T>(s: seq<T>, q: nat, e: nat)
    requires q <= e <= |s|
    ensures s[..q] + (s[q..e] + s[e..]) == s
  {
  }

  lemma ConcatPair(a: string, b: string, rest: seq<string>)
    ensures Concat([a, b] + rest) == a + (b + Concat(rest))
  {
    var parts := [a, b] + rest;
    assert parts[1..] == [b] + rest;
    assert parts[1..][1..] == rest;
  }

  /** The pieces spell the text. */
  lemma {:induction false} SplitSentencesConcat(s: string)
    ensures Concat(SplitSentences(s)) == s
    decreases |s|
  {
    if NextDelimiter(s, 0) < |s| {
      var q, e := SplitAtFirst(s);
      SplitSentencesConcat(s[e..]);
      ConcatPair(s[..q], s[q..e], SplitSentences(s[e..]));
      ThreeSlices(s, q, e);
    } else {
      assert SplitSentences(s) == [s];
      assert Concat([s]) == s + Concat([]);
    }
  }

  /** Every second piece is a delimiter. */
  lemma {:induction false} SplitSentencesDelimiters(s: string)
    ensures forall k :: 0 <= k < |SplitSentences(s)| && k % 2 == 1 ==> IsDelimiter(SplitSentences(s)[k])
    decreases |s|
  {
    if NextDelimiter(s, 0) < |s| {
      var q, e := SplitAtFirst(s);
      var rest := SplitSentences(s[e..]);
      SplitSentencesDelimiters(s[e..]);
      DelimitersCons(s[..q], s[q..e], rest);
    }
  }

  lemma DelimitersCons(a: string, d: string, rest: seq<string>)
    requires IsDelimiter(d)
    requires forall k :: 0 <= k < |rest| && k % 2 == 1 ==> IsDelimiter(rest[k])
    ensures forall k :: 0 <= k < |[a, d] + rest| && k % 2 == 1 ==> IsDelimiter(([a, d] + rest)[k])
  {
    var parts := [a, d] + rest;
    forall k | 0 <= k < |parts| && k % 2 == 1 ensures IsDelimiter(parts[k]) {
      if k >= 2 { assert parts[k] == rest[k - 2]; }
    }
  }

  lemma DelimiterShape(s: string, q: nat, r: nat, e: nat)
    requires DelimiterAt(s, q) && r == q + StopRun(s[q..]) && r < |s|
    requires e == r + SpaceRun(s[r..])
    ensures q < r < e <= |s| && IsDelimiter(s[q..e])
  {
    var d := s[q..e];
    assert s[r..][0] == s[r];
    var stops, spaces := d[..r - q], d[r - q..];
    assert |stops| == r - q && forall j :: 0 <= j < r - q ==> stops[j] == s[q + j];
    assert stops == s[q..][..r - q];
    assert |spaces| == e - r && forall j :: 0 <= j < e - r ==> spaces[j] == s[r + j];
    assert spaces == s[r..][..e - r];
    StopRunPrefix(s[q..], d);
  }

  /** The run of stops sees no further than its first non-stop. */
  lemma {:induction false} StopRunPrefix(s: string, d: string)
    requires StopRun(s) < |d| <= |s| && d == s[..|d|]
    ensures StopRun(d) == StopRun(s)
  {
    if StopRun(s) > 0 {
      assert d[1..] == s[1..][..|d| - 1];
      StopRunPrefix(s[1..], d[1..]);
    }
  }

  /** `.filter(p => p.trim())` over the split: the non-blank sentences and delimiters, in order. */
  function Phrases(text: string): seq<string> {
    NonBlank(SplitSentences(text))
  }

  /** The sentences keep every visible character of the text, in order. */
  lemma SentencesKeepText(text: string)
    ensures Visible(Concat(Phrases(text))) == Visible(text)
  {
    NonBlankKeepsVisible(SplitSentences(text));
    SplitSentencesConcat(text);
  }

  /** A delimiter holds a stop, so the filter never drops one: it stays a piece of its own. */
  lemma DelimiterNotBlank(d: string)
    requires IsDelimiter(d)
    ensures Trim(d) != []
  {
    BlankIff(d);
    assert IsStop(d[0]);
  }

  /**
   * Text with no delimiter anywhere is one sentence, or none when it is
   * blank.
   */
  lemma NoDelimiterOneSentence(text: string)
    requires forall q :: 0 <= q < |text| ==> !DelimiterAt(text, q)
    ensures Phrases(text) == if Trim(text) == [] then [] else [text]
  {
    assert NextDelimiter(text, 0) == |text|;
  }
}
