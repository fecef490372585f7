/**
 * `separerEnSlides`: cuts the sanitised text into slide segments, first on
 * the canonical separator `\n---\n` and, when that gives a single segment,
 * before every line that starts with `##` and a white-space character. Blank
 * segments are dropped.
 */
module Segments {
  import opened JsText
  import opened Sanitize

  predicate OccursAt(s: string, pat: string, j: nat) {
    j + |pat| <= |s| && s[j..j + |pat|] == pat
  }

  /** `pat` occurs nowhere in `s`. */
  predicate Free(s: string, pat: string) {
    forall j :: 0 <= j <= |s| ==> !OccursAt(s, pat, j)
  }

  /** The first occurrence of `pat` in `s`, or `|s|` when there is none. */
  function Find(s: string, pat: string): (i: nat)
    requires |pat| > 0
    ensures i <= |s|
    ensures i < |s| ==> OccursAt(s, pat, i)
    ensures forall j :: 0 <= j < i ==> !OccursAt(s, pat, j)
    ensures i == |s| <==> Free(s, pat)
    decreases |s|
  {
    if |s| < |pat| then |s|
    else if s[..|pat|] == pat then
      assert OccursAt(s, pat, 0) by { assert s[0..0 + |pat|] == s[..|pat|]; }
      assert !Free(s, pat);
      0
    else
      var k := Find(s[1..], pat);
      OccursShift(s, pat);
      assert !OccursAt(s, pat, 0) by { assert s[0..|pat|] == s[..|pat|]; }
      assert forall j :: 1 <= j <= |s| ==> !OccursAt(s, pat, j) || OccursAt(s[1..], pat, j - 1);
      k + 1
  }

  /** An occurrence in `s[1..]` is an occurrence one place further in `s`. */
  lemma OccursShift(s: string, pat: string)
    requires |s| > 0
    ensures forall j :: 0 <= j <= |s| - 1 ==> (OccursAt(s[1..], pat, j) <==> OccursAt(s, pat, j + 1))
  {
    forall j | 0 <= j <= |s| - 1
      ensures OccursAt(s[1..], pat, j) <==> OccursAt(s, pat, j + 1)
    {
      if j + |pat| <= |s| - 1 { assert s[1..][j..j + |pat|] == s[j + 1..j + 1 + |pat|]; }
    }
  }

  /** A prefix of `s` that ends before the first occurrence of `pat` holds no occurrence. */
  lemma FreeBeforeFirst(s: string, pat: string, i: nat)
    requires |pat| > 0 && i <= |s|
    requires forall j :: 0 <= j < i ==> !OccursAt(s, pat, j)
    ensures Free(s[..i], pat)
  {
    forall j | 0 <= j <= i ensures !OccursAt(s[..i], pat, j) {
      if j + |pat| <= i {
        assert s[..i][j..j + |pat|] == s[j..j + |pat|];
        assert !OccursAt(s, pat, j);
      }
    }
  }

  /** `s.split(pat)` where `pat` is a literal: cut at each leftmost occurrence, which disappears. */
  function SplitOn(s: string, pat: string): (parts: seq<string>)
    requires |pat| > 0
    ensures |parts| >= 1
    ensures Join(parts, pat) == s
    ensures forall k :: 0 <= k < |parts| ==> Free(parts[k], pat)
    decreases |s|
  {
    var i := Find(s, pat);
    if i == |s| then [s]
    else
      FreeBeforeFirst(s, pat, i);
      var rest := SplitOn(s[i + |pat|..], pat);
      assert s == s[..i] + pat + s[i + |pat|..];
      [s[..i]] + rest
  }

  /** The lookahead `(?=\n##\s)` holds at position `q`. */
  predicate H2At(s: string, q: nat) {
    q + 3 < |s| && s[q] == '\n' && s[q + 1] == '#' && s[q + 2] == '#' && IsSpace(s[q + 3])
  }

  /** The first position at or after `q` where the lookahead holds, or `|s|`. */
  function NextH2(s: string, q: nat): (r: nat)
    requires q <= |s|
    ensures q <= r <= |s|
    ensures r < |s| ==> H2At(s, r)
    ensures forall j :: q <= j < r ==> !H2At(s, j)
    decreases |s| - q
  {
    if q == |s| || H2At(s, q) then q else NextH2(s, q + 1)
  }

  /** A cut point: a piece from here on starts with `\n##`, followed by white space if it goes on. */
  predicate CutShape(piece: string) {
    |piece| >= 3 && piece[0] == '\n' && piece[1] == '#' && piece[2] == '#' && (|piece| > 3 ==> IsSpace(piece[3]))
  }

  /** The lookahead holds nowhere in `piece` past its first position. */
  predicate NoInnerCut(piece: string) {
    forall j :: 1 <= j <= |piece| ==> !H2At(piece, j)
  }

  /** The piece before the first cut past position 0 has no cut of its own. */
  lemma FirstPieceUncut(s: string, q: nat)
    requires 1 <= q <= |s|
    requires forall j :: 1 <= j < q ==> !H2At(s, j)
    ensures NoInnerCut(s[..q])
  {
    var first := s[..q];
    forall j | 1 <= j <= |first| ensures !H2At(first, j) {
      if j + 3 < |first| {
        assert first[j] == s[j] && first[j + 1] == s[j + 1];
        assert first[j + 2] == s[j + 2] && first[j + 3] == s[j + 3];
        assert !H2At(s, j);
      }
    }
  }

  /**
   * `s.split(/(?=\n##\s)/)`: the text is cut, with nothing removed, at every
   * position past the first where a newline, `##` and a white-space character
   * follow. The lookahead reads past the cut, so a piece may be as short as
   * `\n##` when the next line is itself a cut.
   */
  function SplitBeforeH2(s: string): (parts: seq<string>)
    ensures |parts| >= 1
    ensures Concat(parts) == s
    decreases |s|
  {
    if |s| <= 1 then [s]
    else
      var q := NextH2(s, 1);
      if q == |s| then [s]
      else
        var rest := SplitBeforeH2(s[q..]);
        assert s == s[..q] + s[q..];
        [s[..q]] + rest
  }

  /**
   * The shape of the fallback's pieces: each later piece starts with `\n##`
   * and white space or its end, and a piece read on its own has no cut point
   * past its start. Where the cuts fall in the whole text is
   * `SplitBeforeH2Starts`.
   */
  lemma {:induction false} SplitBeforeH2Cuts(s: string)
    ensures StartsWith(s, SplitBeforeH2(s)[0])
    ensures H2At(s, 0) ==> |SplitBeforeH2(s)[0]| >= 3
    ensures forall k :: 1 <= k < |SplitBeforeH2(s)| ==> CutShape(SplitBeforeH2(s)[k])
    ensures forall k :: 0 <= k < |SplitBeforeH2(s)| ==> NoInnerCut(SplitBeforeH2(s)[k])
    decreases |s|
  {
    var parts := SplitBeforeH2(s);
    if |s| > 1 {
      var q := NextH2(s, 1);
      FirstPieceUncut(s, q);
      if q < |s| {
        var tail := s[q..];
        var rest := SplitBeforeH2(tail);
        SplitBeforeH2Cuts(tail);
        assert parts == [s[..q]] + rest;
        assert H2At(tail, 0);
        PrefixCut(tail, rest[0]);
        if H2At(s, 0) { assert !H2At(s, 1) && !H2At(s, 2); }
        forall k | 1 <= k < |parts| ensures CutShape(parts[k]) {
          assert parts[k] == rest[k - 1];
        }
        forall k | 0 <= k < |parts| ensures NoInnerCut(parts[k]) {
          if k > 0 { assert parts[k] == rest[k - 1]; }
        }
      } else {
        assert s[..q] == s;
      }
    }
  }

  lemma PrefixCut(tail: string, piece: string)
    requires H2At(tail, 0) && StartsWith(tail, piece) && |piece| >= 3
    ensures CutShape(piece)
  {
    assert piece == tail[..|piece|];
  }

  /** A cut point is never a `###` line: the character after `##` is white space. */
  lemma CutNotH3(p: string)
    requires CutShape(p)
    ensures !StartsWith(p, "\n###")
  {
    if |p| >= 4 {
      assert p[..4][3] == p[3];
    }
  }

  /** The fallback never cuts in front of a line that starts with `###`. */
  lemma NoCutBeforeH3(s: string)
    ensures forall k :: 1 <= k < |SplitBeforeH2(s)| ==> !StartsWith(SplitBeforeH2(s)[k], "\n###")
  {
    var parts := SplitBeforeH2(s);
    SplitBeforeH2Cuts(s);
    forall k | 1 <= k < |parts| ensures !StartsWith(parts[k], "\n###") {
      CutNotH3(parts[k]);
    }
  }

  /** The positions from `q` on where the lookahead holds, in increasing order. */
  function CutsFrom(s: string, q: nat): seq<nat>
    decreases |s| - q
  {
    if q >= |s| then [] else (if H2At(s, q) then [q] else []) + CutsFrom(s, q + 1)
  }

  /** Where the pieces after the first start, counting the first piece from `base`. */
  function PieceStarts(parts: seq<string>, base: nat): seq<nat> {
    if |parts| <= 1 then [] else [base + |parts[0]|] + PieceStarts(parts[1..], base + |parts[0]|)
  }

  /** A position is listed exactly when the lookahead holds there, from `q` on. */
  lemma {:induction false} CutsFromIff(s: string, q: nat, j: nat)
    ensures j in CutsFrom(s, q) <==> q <= j < |s| && H2At(s, j)
    decreases |s| - q
  {
    if q < |s| {
      CutsFromIff(s, q + 1, j);
      var head := if H2At(s, q) then [q] else [];
      assert CutsFrom(s, q) == head + CutsFrom(s, q + 1);
      assert j in head <==> j == q && H2At(s, q);
    }
  }

  /** Positions where the lookahead fails add nothing to the list. */
  lemma {:induction false} CutsFromSkip(s: string, q: nat, r: nat)
    requires q <= r <= |s|
    requires forall j :: q <= j < r ==> !H2At(s, j)
    ensures CutsFrom(s, q) == CutsFrom(s, r)
    decreases r - q
  {
    if q < r {
      CutsFromSkip(s, q + 1, r);
      assert CutsFrom(s, q) == [] + CutsFrom(s, q + 1);
    }
  }

  /** The lookahead read in a suffix is the lookahead read in the whole text. */
  lemma H2Shift(s: string, b: nat, j: nat)
    requires b <= |s|
    ensures H2At(s[b..], j) <==> H2At(s, b + j)
  {
    if b + j + 3 < |s| {
      assert s[b..][j] == s[b + j] && s[b..][j + 1] == s[b + j + 1];
      assert s[b..][j + 2] == s[b + j + 2] && s[b..][j + 3] == s[b + j + 3];
    }
  }

  /** The fallback unfolded at its first cut. */
  lemma SplitBeforeH2Step(t: string)
    requires |t| > 1 && NextH2(t, 1) < |t|
    ensures SplitBeforeH2(t) == [t[..NextH2(t, 1)]] + SplitBeforeH2(t[NextH2(t, 1)..])
  {
  }

  /** The fallback of a text with no cut past its start is the text alone. */
  lemma SplitBeforeH2Whole(t: string)
    requires |t| <= 1 || NextH2(t, 1) == |t|
    ensures SplitBeforeH2(t) == [t]
  {
  }

  /** The start offsets of a list of pieces, unfolded at its first piece. */
  lemma PieceStartsCons(parts: seq<string>, first: string, rest: seq<string>, base: nat, q: nat)
    requires parts == [first] + rest && rest != [] && |first| == q
    ensures PieceStarts(parts, base) == [base + q] + PieceStarts(rest, base + q)
  {
    HeadTail([first], rest);
  }

  /** No cut in a suffix before `q` means no cut in the whole text between the same positions. */
  lemma NoCutsBetween(s: string, b: nat, q: nat)
    requires b <= |s| && 1 <= q <= |s| - b
    requires forall j :: 1 <= j < q ==> !H2At(s[b..], j)
    ensures CutsFrom(s, b + 1) == CutsFrom(s, b + q)
  {
    forall j | b + 1 <= j < b + q ensures !H2At(s, j) {
      H2Shift(s, b, j - b);
    }
    CutsFromSkip(s, b + 1, b + q);
  }

  /**
   * The equations that define the fallback, for any function that meets
   * them: one piece when there is no cut past the first position, else the
   * text up to the first cut followed by the split of the rest.
   */
  ghost predicate CutsLikeSplit(f: string -> seq<string>) {
    f([]) == [[]] &&
    forall t {:trigger NextH2(t, 1)} :: |t| >= 1 ==>
      f(t) == if |t| == 1 || NextH2(t, 1) == |t| then [t] else [t[..NextH2(t, 1)]] + f(t[NextH2(t, 1)..])
  }

  /** The fallback meets those equations. */
  lemma SplitBeforeH2CutsLike()
    ensures CutsLikeSplit(SplitBeforeH2)
  {
    forall t | |t| >= 1
      ensures SplitBeforeH2(t) == if |t| == 1 || NextH2(t, 1) == |t| then [t] else [t[..NextH2(t, 1)]] + SplitBeforeH2(t[NextH2(t, 1)..])
    {
      if |t| == 1 || NextH2(t, 1) == |t| {
        SplitBeforeH2Whole(t);
      } else {
        SplitBeforeH2Step(t);
      }
    }
  }

  /** With no cut past its start, the suffix from `b` is one piece and no cut point lies past `b`. */
  lemma StartsNoCut(f: string -> seq<string>, s: string, b: nat, t: string)
    requires CutsLikeSplit(f) && b <= |s| && t == s[b..]
    requires t == [] || NextH2(t, 1) == |t|
    ensures PieceStarts(f(t), b) == CutsFrom(s, b + 1)
  {
    if t != [] {
      NoCutsBetween(s, b, NextH2(t, 1));
    }
  }

  /** With its first cut at `q`, the suffix from `b` has `b + q` as its first start offset. */
  lemma StartsAtCut(f: string -> seq<string>, s: string, b: nat, t: string, q: nat)
    requires CutsLikeSplit(f) && b <= |s| && t == s[b..]
    requires |t| > 1 && q == NextH2(t, 1) && q < |t|
    requires PieceStarts(f(s[b + q..]), b + q) == CutsFrom(s, b + q + 1)
    ensures PieceStarts(f(t), b) == CutsFrom(s, b + 1)
  {
    var u := t[q..];
    assert u == s[b + q..];
    NoCutsBetween(s, b, q);
    H2Shift(s, b, q);
    assert f(u) != [] by {
      assert NextH2(u, 1) <= |u|;
    }
    PieceStartsCons(f(t), t[..q], f(u), b, q);
    assert CutsFrom(s, b + q) == [b + q] + CutsFrom(s, b + q + 1);
  }

  /**
   * One step of the split of the suffix from `b`: either it holds no cut past
   * its start (`q == 0`), or its first cut is at `b + q` and the start
   * offsets past `b` follow from those of the suffix from `b + q`.
   */
  lemma StartsStep(f: string -> seq<string>, s: string, b: nat, t: string) returns (q: nat)
    requires CutsLikeSplit(f) && b <= |s| && t == s[b..]
    ensures q == 0 ==> PieceStarts(f(t), b) == CutsFrom(s, b + 1)
    ensures q > 0 ==> b + q < |s|
    ensures q > 0 && PieceStarts(f(s[b + q..]), b + q) == CutsFrom(s, b + q + 1) ==>
      PieceStarts(f(t), b) == CutsFrom(s, b + 1)
  {
    if t == [] || NextH2(t, 1) == |t| {
      StartsNoCut(f, s, b, t);
      q := 0;
    } else {
      q := NextH2(t, 1);
      if PieceStarts(f(s[b + q..]), b + q) == CutsFrom(s, b + q + 1) {
        StartsAtCut(f, s, b, t, q);
      }
    }
  }

  /** The pieces of such a split of the suffix from `b` start at the cut points past `b`. */
  lemma {:induction false} SplitStartsFrom(f: string -> seq<string>, s: string, b: nat)
    requires CutsLikeSplit(f) && b <= |s|
    ensures PieceStarts(f(s[b..]), b) == CutsFrom(s, b + 1)
    decreases |s| - b
  {
    var q := StartsStep(f, s, b, s[b..]);
    if q > 0 {
      SplitStartsFrom(f, s, b + q);
    }
  }

  /** The `k`-th start offset is the length of the first `k` pieces together. */
  lemma {:induction false} PieceStartsAt(parts: seq<string>, base: nat)
    ensures |PieceStarts(parts, base)| == if parts == [] then 0 else |parts| - 1
    ensures forall k :: 1 <= k < |parts| ==> PieceStarts(parts, base)[k - 1] == base + |Concat(parts[..k])|
    decreases |parts|
  {
    if |parts| > 1 {
      var b := base + |parts[0]|;
      PieceStartsAt(parts[1..], b);
      forall k | 1 <= k < |parts| ensures PieceStarts(parts, base)[k - 1] == base + |Concat(parts[..k])| {
        assert parts[..k] == [parts[0]] + parts[1..][..k - 1];
        ConcatCons(parts[0], parts[1..][..k - 1]);
      }
    }
  }

  /**
   * The fallback cuts exactly where the lookahead holds: the pieces after the
   * first start, in order, at offsets of the text past its first position
   * where a newline, `##` and a white-space character follow, and every such
   * offset starts a piece.
   */
  lemma SplitBeforeH2Starts(s: string)
    ensures |PieceStarts(SplitBeforeH2(s), 0)| == |SplitBeforeH2(s)| - 1
    ensures forall k :: 1 <= k < |SplitBeforeH2(s)| ==> PieceStarts(SplitBeforeH2(s), 0)[k - 1] == |Concat(SplitBeforeH2(s)[..k])|
    ensures forall j: nat :: j in PieceStarts(SplitBeforeH2(s), 0) <==> 1 <= j < |s| && H2At(s, j)
  {
    assert s[0..] == s;
    SplitBeforeH2CutsLike();
    SplitStartsFrom(SplitBeforeH2, s, 0);
    PieceStartsAt(SplitBeforeH2(s), 0);
    forall j: nat ensures j in PieceStarts(SplitBeforeH2(s), 0) <==> 1 <= j < |s| && H2At(s, j) {
      CutsFromIff(s, 1, j);
    }
  }

  /** `separerEnSlides(markdown)`. */
  function Segment(text: string): seq<string> {
    var bySeparator := NonBlank(SplitOn(text, Separator));
    if |bySeparator| == 1 then NonBlank(SplitBeforeH2(text)) else bySeparator
  }

  /** No segment is blank, and the heading fallback is used exactly when the separator split leaves one segment. */
  lemma SegmentShape(text: string)
    ensures forall k :: 0 <= k < |Segment(text)| ==> Trim(Segment(text)[k]) != []
    ensures |NonBlank(SplitOn(text, Separator))| != 1 ==> Segment(text) == NonBlank(SplitOn(text, Separator))
    ensures |NonBlank(SplitOn(text, Separator))| == 1 ==> Segment(text) == NonBlank(SplitBeforeH2(text))
  {
    NonBlankFilled(SplitOn(text, Separator));
    NonBlankFilled(SplitBeforeH2(text));
  }

  /** Blank text gives no segment at all, not one empty slide. */
  lemma SegmentBlank(text: string)
    requires AllSpace(text)
    ensures Segment(text) == []
  {
    forall j | 0 <= j <= |text| ensures !OccursAt(text, Separator, j) {
      if j + 5 <= |text| {
        assert text[j..j + 5][1] == text[j + 1];
        assert IsSpace(text[j + 1]) && !IsSpace(Separator[1]);
      }
    }
    assert Find(text, Separator) == |text|;
    assert SplitOn(text, Separator) == [text];
    BlankIff(text);
  }

  /**
   * Without an explicit separator, the segments hold every visible character
   * of the text, in order: only blank pieces are dropped.
   */
  lemma SegmentKeepsText(text: string)
    requires Free(text, Separator)
    ensures Visible(Concat(Segment(text))) == Visible(text)
  {
    assert Find(text, Separator) == |text|;
    assert SplitOn(text, Separator) == [text];
    if Trim(text) != [] {
      assert NonBlank([text]) == [text];
      NonBlankKeepsVisible(SplitBeforeH2(text));
    } else {
      BlankIff(text);
      VisibleOfBlank(text);
      assert NonBlank([text]) == [];
    }
  }

  /** Non-blank text without an explicit separator yields at least one segment. */
  lemma SegmentNotEmpty(text: string)
    requires Free(text, Separator) && !AllSpace(text)
    ensures |Segment(text)| >= 1
  {
    SegmentKeepsText(text);
    if Segment(text) == [] {
      var i :| 0 <= i < |text| && !IsSpace(text[i]);
      VisibleHasChar(text, i);
      assert false;
    }
  }
}
