/**
 * `traiterListes` and its helpers: the lines of a slide are trimmed; each
 * maximal run of consecutive list lines becomes one `<ul class="fragment">`
 * with one `<li>` per line, blank lines emit nothing, and every other line
 * is kept as it is when it already starts with `<h` or `<ul`, or wrapped in
 * `<p>…</p>` otherwise. The pieces are joined with `\n`.
 */
module Lists {
  import opened JsText

  predicate IsBulletMark(c: char) {
    c == '-' || c == '*'
  }

  /** `\d`: an ASCII digit. */
  predicate IsDigit(c: char) {
    '0' <= c <= '9'
  }

  /** Length of the run of digits that starts `s`. */
  function DigitRun(s: string): (n: nat)
    ensures n <= |s|
    ensures forall i :: 0 <= i < n ==> IsDigit(s[i])
    ensures n < |s| ==> !IsDigit(s[n])
  {
    if s != [] && IsDigit(s[0]) then DigitRun(s[1..]) + 1 else 0
  }

  /** `\s+(.+)$` at the start of `u`: white space, then at least one more character up to the end, none of them a line terminator. */
  predicate SpacesThenRest(u: string) {
    exists k :: 1 <= k < |u| && AllSpace(u[..k]) && NoTerminator(u[k..])
  }

  /** `/^[-\*]\s+(.+)$/`. */
  predicate IsBulletLine(t: string) {
    |t| >= 1 && IsBulletMark(t[0]) && SpacesThenRest(t[1..])
  }

  /** `/^\d+\.\s+(.+)$/`. */
  predicate IsNumberedLine(t: string) {
    var n := DigitRun(t);
    1 <= n < |t| && t[n] == '.' && SpacesThenRest(t[n + 1..])
  }

  /** `estLigneDeListe(ligne)`. */
  predicate IsListLine(t: string) {
    IsBulletLine(t) || IsNumberedLine(t)
  }

  /** `/^[-\*]\s+/` matches at the front. */
  predicate BulletPrefix(t: string) {
    |t| >= 2 && IsBulletMark(t[0]) && IsSpace(t[1])
  }

  /** `/^\d+\.\s+/` matches at the front. */
  predicate NumberPrefix(t: string) {
    var n := DigitRun(t);
    1 <= n && n + 1 < |t| && t[n] == '.' && IsSpace(t[n + 1])
  }

  /** `extraireContenuListe(ligne)`: drops a bullet and its spaces, then a number, its dot and its spaces. */
  function ListContent(t: string): string {
    var u := if BulletPrefix(t) then t[1 + SpaceRun(t[1..])..] else t;
    if NumberPrefix(u) then
      var n := DigitRun(u);
      u[n + 1 + SpaceRun(u[n + 1..])..]
    else u
  }

  /** `formaterLigneNonListe(ligne)`. */
  function FormatLine(t: string): string {
    if StartsWith(t, "<h") || StartsWith(t, "<ul") then t else "<p>" + t + "</p>"
  }

  function ListItem(content: string): string {
    "<li>" + content + "</li>"
  }

  function ListItems(contents: seq<string>): (r: seq<string>)
    ensures |r| == |contents|
    ensures forall k :: 0 <= k < |r| ==> r[k] == ListItem(contents[k])
  {
    if contents == [] then [] else [ListItem(contents[0])] + ListItems(contents[1..])
  }

  /** `creerListeHTML(elements)`. */
  function ListHtml(elements: seq<string>): string {
    "<ul class=\"fragment\">" + Concat(elements) + "</ul>"
  }

  /** What one output piece of the grouping is: a list, with the contents of its items, or one formatted line. */
  datatype Piece = ListPiece(contents: seq<string>) | LinePiece(line: string)

  function RenderPiece(p: Piece): string {
    match p
    case ListPiece(contents) => ListHtml(ListItems(contents))
    case LinePiece(line) => line
  }

  function RenderAll(ps: seq<Piece>): (r: seq<string>)
    ensures |r| == |ps|
  {
    if ps == [] then [] else [RenderPiece(ps[0])] + RenderAll(ps[1..])
  }

  lemma {:induction false} RenderAllAppend(a: seq<Piece>, b: seq<Piece>)
    ensures RenderAll(a + b) == RenderAll(a) + RenderAll(b)
  {
    if a == [] {
      assert a + b == b;
    } else {
      HeadTail(a, b);
      RenderAllAppend(a[1..], b);
    }
  }

  /** The open list, if any, as the pieces it closes into. */
  function Flush(contents: seq<string>): seq<Piece> {
    if contents == [] then [] else [ListPiece(contents)]
  }

  /**
   * The pieces made from `lines` when a list whose items have the contents
   * `contents` is still open in front of them.
   */
  function Continue(contents: seq<string>, lines: seq<string>): seq<Piece>
    decreases |lines|
  {
    if lines == [] then Flush(contents)
    else
      var t := Trim(lines[0]);
      if IsListLine(t) then Continue(contents + [ListContent(t)], lines[1..])
      else Flush(contents) + Emitted(t) + Continue([], lines[1..])
  }

  /** What a trimmed line that is not a list line emits: nothing when it is blank. */
  function Emitted(t: string): seq<Piece> {
    if t == [] then [] else [LinePiece(FormatLine(t))]
  }

  /** `Continue` unfolded at a first line that is a list line. */
  lemma ContinueList(contents: seq<string>, lines: seq<string>)
    requires lines != [] && IsListLine(Trim(lines[0]))
    ensures Continue(contents, lines) == Continue(contents + [ListContent(Trim(lines[0]))], lines[1..])
  {
  }

  /** `Continue` unfolded at a first line that is not a list line. */
  lemma ContinueOther(contents: seq<string>, lines: seq<string>)
    requires lines != [] && !IsListLine(Trim(lines[0]))
    ensures Continue(contents, lines) == Flush(contents) + Emitted(Trim(lines[0])) + Continue([], lines[1..])
  {
  }

  /** A list line at `i` joins the open list. */
  lemma ListLineStep(done: seq<Piece>, contents: seq<string>, lines: seq<string>, i: nat, whole: seq<Piece>)
    requires i < |lines| && IsListLine(Trim(lines[i]))
    requires done + Continue(contents, lines[i..]) == whole
    ensures done + Continue(contents + [ListContent(Trim(lines[i]))], lines[i + 1..]) == whole
  {
    assert lines[i..][0] == lines[i] && lines[i..][1..] == lines[i + 1..];
    ContinueList(contents, lines[i..]);
  }

  /** Any other line at `i` closes the open list and emits itself unless it is blank. */
  lemma OtherLineStep(done: seq<Piece>, contents: seq<string>, lines: seq<string>, i: nat, whole: seq<Piece>)
    requires i < |lines| && !IsListLine(Trim(lines[i]))
    requires done + Continue(contents, lines[i..]) == whole
    ensures (done + (Flush(contents) + Emitted(Trim(lines[i])))) + Continue([], lines[i + 1..]) == whole
  {
    assert lines[i..][0] == lines[i] && lines[i..][1..] == lines[i + 1..];
    ContinueOther(contents, lines[i..]);
    Associative(done, Flush(contents) + Emitted(Trim(lines[i])), Continue([], lines[i + 1..]));
  }

  /** The grouping of a slide's lines into pieces. */
  function Group(lines: seq<string>): seq<Piece> {
    Continue([], lines)
  }

  lemma ListItemsSnoc(contents: seq<string>, c: string)
    ensures ListItems(contents + [c]) == ListItems(contents) + [ListItem(c)]
  {
  }

  /**
   * One turn of the loop of `traiterListes` on the trimmed line `line`: a
   * list line opens the list if needed and adds its item; any other line
   * closes an open list and then adds itself unless it is blank.
   */
  method TreatLine(line: string, result: seq<string>, inList: bool, elements: seq<string>, ghost contents: seq<string>)
    returns (result': seq<string>, inList': bool, elements': seq<string>, ghost contents': seq<string>)
    requires elements == ListItems(contents) && (inList <==> contents != [])
    ensures elements' == ListItems(contents') && (inList' <==> contents' != [])
    ensures IsListLine(line) ==> result' == result && contents' == contents + [ListContent(line)]
    ensures !IsListLine(line) ==> result' == result + RenderAll(Flush(contents) + Emitted(line)) && contents' == []
  {
    result', inList', elements', contents' := result, inList, elements, contents;
    if IsListLine(line) {
      if !inList' {
        inList' := true;
        elements' := [];
      }
      var content := ListContent(line);
      elements' := elements' + [ListItem(content)];
      ListItemsSnoc(contents, content);
      contents' := contents + [content];
    } else {
      if inList' {
        result' := result' + [ListHtml(elements')];
        inList' := false;
        elements' := [];
      }
      if line != [] {
        result' := result' + [FormatLine(line)];
      }
      RenderAllAppend(Flush(contents), Emitted(line));
      contents' := [];
    }
  }

  /** The loop of `traiterListes` over the lines of a slide, giving the pieces to join. */
  method TreatLines(lines: seq<string>) returns (result: seq<string>)
    ensures result == RenderAll(Group(lines))
  {
    result := [];
    var inList := false;
    var elements: seq<string> := [];
    ghost var done: seq<Piece> := [];
    ghost var contents: seq<string> := [];
    ghost var whole := Group(lines);
    var i := 0;
    while i < |lines|
      invariant 0 <= i <= |lines|
      invariant done + Continue(contents, lines[i..]) == whole
      invariant result == RenderAll(done)
      invariant elements == ListItems(contents)
      invariant inList <==> contents != []
    {
      var line := Trim(lines[i]);
      ghost var closed := Flush(contents) + Emitted(line);
      if IsListLine(line) {
        ListLineStep(done, contents, lines, i, whole);
      } else {
        OtherLineStep(done, contents, lines, i, whole);
        RenderAllAppend(done, closed);
        done := done + closed;
      }
      result, inList, elements, contents := TreatLine(line, result, inList, elements, contents);
      i := i + 1;
    }
    assert lines[i..] == [];
    if inList && |elements| > 0 {
      result := result + [ListHtml(elements)];
    }
    RenderAllAppend(done, Flush(contents));
  }

  /** What `traiterListes(texte)` returns: the rendered pieces of the grouped lines, joined with `\n`. */
  function ListsHtml(text: string): string {
    Join(RenderAll(Group(Split(text, '\n'))), "\n")
  }

  /** `traiterListes(texte)`. */
  method TreatLists(text: string) returns (r: string)
    ensures r == ListsHtml(text)
  {
    var pieces := TreatLines(Split(text, '\n'));
    r := Join(pieces, "\n");
  }

  /** The items of every list piece, in order. */
  function ItemsOf(ps: seq<Piece>): seq<string> {
    if ps == [] then []
    else (if ps[0].ListPiece? then ps[0].contents else []) + ItemsOf(ps[1..])
  }

  /** The non-list pieces, in order. */
  function LinesOut(ps: seq<Piece>): seq<string> {
    if ps == [] then []
    else (if ps[0].LinePiece? then [ps[0].line] else []) + LinesOut(ps[1..])
  }

  function ListCount(ps: seq<Piece>): nat {
    if ps == [] then 0 else (if ps[0].ListPiece? then 1 else 0) + ListCount(ps[1..])
  }

  lemma {:induction false} ItemsOfAppend(a: seq<Piece>, b: seq<Piece>)
    ensures ItemsOf(a + b) == ItemsOf(a) + ItemsOf(b)
  {
    if a == [] {
      assert a + b == b;
    } else {
      HeadTail(a, b);
      ItemsOfAppend(a[1..], b);
      Associative(if a[0].ListPiece? then a[0].contents else [], ItemsOf(a[1..]), ItemsOf(b));
    }
  }

  lemma {:induction false} LinesOutAppend(a: seq<Piece>, b: seq<Piece>)
    ensures LinesOut(a + b) == LinesOut(a) + LinesOut(b)
  {
    if a == [] {
      assert a + b == b;
    } else {
      HeadTail(a, b);
      LinesOutAppend(a[1..], b);
      Associative(if a[0].LinePiece? then [a[0].line] else [], LinesOut(a[1..]), LinesOut(b));
    }
  }

  lemma {:induction false} ListCountAppend(a: seq<Piece>, b: seq<Piece>)
    ensures ListCount(a + b) == ListCount(a) + ListCount(b)
  {
    if a == [] {
      assert a + b == b;
    } else {
      HeadTail(a, b);
      ListCountAppend(a[1..], b);
    }
  }

  /** The contents of the list lines, in order: an independent statement of what the items must be. */
  function ListLineContents(lines: seq<string>): seq<string> {
    if lines == [] then []
    else (if IsListLine(Trim(lines[0])) then [ListContent(Trim(lines[0]))] else []) + ListLineContents(lines[1..])
  }

  /** The other non-blank lines, formatted, in order. */
  function OtherLines(lines: seq<string>): seq<string> {
    if lines == [] then []
    else
      var t := Trim(lines[0]);
      (if !IsListLine(t) && t != [] then [FormatLine(t)] else []) + OtherLines(lines[1..])
  }

  /** Number of list lines that do not follow a list line: the number of maximal runs. */
  function RunStarts(previousIsList: bool, lines: seq<string>): nat
    decreases |lines|
  {
    if lines == [] then 0
    else
      var isList := IsListLine(Trim(lines[0]));
      (if isList && !previousIsList then 1 else 0) + RunStarts(isList, lines[1..])
  }

  predicate ListsNonEmpty(ps: seq<Piece>) {
    forall k :: 0 <= k < |ps| && ps[k].ListPiece? ==> ps[k].contents != []
  }

  lemma {:induction false} ContinueItems(contents: seq<string>, lines: seq<string>)
    ensures ItemsOf(Continue(contents, lines)) == contents + ListLineContents(lines)
    decreases |lines|
  {
    if lines == [] {
      assert contents + [] == contents;
    } else if IsListLine(Trim(lines[0])) {
      var c := ListContent(Trim(lines[0]));
      var tail := ListLineContents(lines[1..]);
      assert ListLineContents(lines) == [c] + tail;
      Associative(contents, [c], tail);
      ContinueItems(contents + [c], lines[1..]);
    } else {
      ContinueItems([], lines[1..]);
      ItemsAfterOtherLine(contents, lines);
    }
  }

  lemma ListLineContentsOther(lines: seq<string>)
    requires lines != [] && !IsListLine(Trim(lines[0]))
    ensures ListLineContents(lines) == ListLineContents(lines[1..])
  {
    assert [] + ListLineContents(lines[1..]) == ListLineContents(lines[1..]);
  }

  /** The items of an open list closed by a line that is not a list line. */
  lemma ItemsOfClosed(contents: seq<string>, t: string)
    requires !IsListLine(t)
    ensures ItemsOf(Flush(contents) + Emitted(t)) == contents
  {
    assert ItemsOf(Flush(contents)) == contents by {
      if contents != [] { assert Flush(contents)[1..] == []; }
    }
    assert ItemsOf(Emitted(t)) == [];
    ItemsOfAppend(Flush(contents), Emitted(t));
    assert contents + [] == contents;
  }

  lemma ItemsAfterOtherLine(contents: seq<string>, lines: seq<string>)
    requires lines != [] && !IsListLine(Trim(lines[0]))
    requires ItemsOf(Continue([], lines[1..])) == [] + ListLineContents(lines[1..])
    ensures ItemsOf(Continue(contents, lines)) == contents + ListLineContents(lines)
  {
    var t, rest := Trim(lines[0]), lines[1..];
    var head, tail := Flush(contents) + Emitted(t), Continue([], rest);
    ContinueOther(contents, lines);
    ItemsOfClosed(contents, t);
    ItemsOfAppend(head, tail);
    assert ItemsOf(tail) == ListLineContents(rest);
    ListLineContentsOther(lines);
  }

  lemma {:induction false} ContinueLines(contents: seq<string>, lines: seq<string>)
    ensures LinesOut(Continue(contents, lines)) == OtherLines(lines)
    decreases |lines|
  {
    if lines != [] {
      var t := Trim(lines[0]);
      var rest := lines[1..];
      if IsListLine(t) {
        ContinueLines(contents + [ListContent(t)], rest);
      } else {
        ContinueOther(contents, lines);
        ContinueLines([], rest);
        LinesOutAppend(Flush(contents), Emitted(t));
        LinesOutAppend(Flush(contents) + Emitted(t), Continue([], rest));
      }
    }
  }

  lemma {:induction false} ContinueCount(contents: seq<string>, lines: seq<string>)
    ensures ListCount(Continue(contents, lines)) == (if contents != [] then 1 else 0) + RunStarts(contents != [], lines)
    decreases |lines|
  {
    if lines != [] {
      var t := Trim(lines[0]);
      var rest := lines[1..];
      if IsListLine(t) {
        ContinueCount(contents + [ListContent(t)], rest);
      } else {
        ContinueOther(contents, lines);
        ContinueCount([], rest);
        ListCountAppend(Flush(contents), Emitted(t));
        ListCountAppend(Flush(contents) + Emitted(t), Continue([], rest));
      }
    }
  }

  lemma ListsNonEmptyAppend(a: seq<Piece>, b: seq<Piece>)
    requires ListsNonEmpty(a) && ListsNonEmpty(b)
    ensures ListsNonEmpty(a + b)
  {
    var all := a + b;
    forall k | 0 <= k < |all| && all[k].ListPiece? ensures all[k].contents != [] {
      if k >= |a| {
        assert all[k] == b[k - |a|];
      } else {
        assert all[k] == a[k];
      }
    }
  }

  lemma {:induction false} ContinueNonEmpty(contents: seq<string>, lines: seq<string>)
    ensures ListsNonEmpty(Continue(contents, lines))
    decreases |lines|
  {
    if lines != [] {
      var t := Trim(lines[0]);
      var rest := lines[1..];
      if IsListLine(t) {
        ContinueList(contents, lines);
        ContinueNonEmpty(contents + [ListContent(t)], rest);
      } else {
        ContinueOther(contents, lines);
        ContinueNonEmpty([], rest);
        ListsNonEmptyAppend(Flush(contents), Emitted(t));
        ListsNonEmptyAppend(Flush(contents) + Emitted(t), Continue([], rest));
      }
    }
  }

  /**
   * The grouping keeps every list line's content and every other non-blank
   * line, in order; it makes exactly one list per maximal run of list lines,
   * and no list is empty.
   */
  lemma GroupFacts(lines: seq<string>)
    ensures ItemsOf(Group(lines)) == ListLineContents(lines)
    ensures LinesOut(Group(lines)) == OtherLines(lines)
    ensures ListCount(Group(lines)) == RunStarts(false, lines)
    ensures ListsNonEmpty(Group(lines))
  {
    ContinueItems([], lines);
    ContinueLines([], lines);
    ContinueCount([], lines);
    ContinueNonEmpty([], lines);
    assert [] + ListLineContents(lines) == ListLineContents(lines);
  }

  /** Every line of `r`, once trimmed, is a list line. */
  predicate AllListLines(r: seq<string>) {
    forall k :: 0 <= k < |r| ==> IsListLine(Trim(r[k]))
  }

  /** The contents of a run of list lines: one per line, in order. */
  function RunItems(r: seq<string>): (items: seq<string>)
    requires AllListLines(r)
    ensures |items| == |r|
    ensures forall k :: 0 <= k < |r| ==> items[k] == ListContent(Trim(r[k]))
  {
    if r == [] then [] else [ListContent(Trim(r[0]))] + RunItems(r[1..])
  }

  /** Over a run of list lines, the list-line contents are the run's items. */
  lemma {:induction false} RunContents(r: seq<string>)
    requires AllListLines(r)
    ensures ListLineContents(r) == RunItems(r)
    decreases |r|
  {
    if r != [] {
      RunContents(r[1..]);
    }
  }

  /** A run of list lines joins the open list whole, its contents added in order. */
  lemma {:induction false} ContinueRun(contents: seq<string>, r: seq<string>, tail: seq<string>)
    requires AllListLines(r)
    ensures Continue(contents, r + tail) == Continue(contents + ListLineContents(r), tail)
    decreases |r|
  {
    if r == [] {
      assert r + tail == tail;
      assert contents + [] == contents;
    } else {
      var c := ListContent(Trim(r[0]));
      HeadTail(r, tail);
      ContinueList(contents, r + tail);
      ContinueRun(contents + [c], r[1..], tail);
      assert ListLineContents(r) == [c] + ListLineContents(r[1..]);
      Associative(contents, [c], ListLineContents(r[1..]));
    }
  }

  /**
   * A non-empty run of list lines ended by a line that is not one becomes one
   * list holding exactly the run's items, then what the ending line emits,
   * then the grouping of the rest.
   */
  lemma GroupRun(r: seq<string>, t: string, rest: seq<string>)
    requires r != [] && AllListLines(r) && !IsListLine(Trim(t))
    ensures Group(r + [t] + rest) == [ListPiece(RunItems(r))] + Emitted(Trim(t)) + Group(rest)
  {
    RunContents(r);
    Associative(r, [t], rest);
    ContinueRun([], r, [t] + rest);
    assert [] + ListLineContents(r) == RunItems(r);
    HeadTail([t], rest);
    ContinueOther(RunItems(r), [t] + rest);
  }

  /** A run of list lines at the end becomes one list holding exactly its items. */
  lemma GroupFinalRun(r: seq<string>)
    requires r != [] && AllListLines(r)
    ensures Group(r) == [ListPiece(RunItems(r))]
  {
    RunContents(r);
    assert r + [] == r;
    ContinueRun([], r, []);
    assert [] + ListLineContents(r) == RunItems(r);
  }

  /** A line that is not a list line and opens no list emits itself in place, or nothing when blank. */
  lemma GroupOtherLine(t: string, rest: seq<string>)
    requires !IsListLine(Trim(t))
    ensures Group([t] + rest) == Emitted(Trim(t)) + Group(rest)
  {
    HeadTail([t], rest);
    ContinueOther([], [t] + rest);
  }

  /** A blank line emits nothing: it only closes an open list. */
  lemma BlankLineEmitsNothing(contents: seq<string>, blank: string, rest: seq<string>)
    requires AllSpace(blank)
    ensures Continue(contents, [blank] + rest) == Flush(contents) + Continue([], rest)
  {
    BlankIff(blank);
    var lines := [blank] + rest;
    assert lines[0] == blank && lines[1..] == rest;
    assert !IsListLine([]) by {
      assert DigitRun([]) == 0;
    }
  }

  /** A line already starting with `<h` or `<ul` passes through; any other is wrapped in a paragraph. */
  lemma FormatLineCases(t: string)
    ensures StartsWith(t, "<h") || StartsWith(t, "<ul") ==> FormatLine(t) == t
    ensures !StartsWith(t, "<h") && !StartsWith(t, "<ul") ==> FormatLine(t) == "<p>" + t + "</p>"
  {
  }

  /** A bullet, its spaces and a content that does not itself start with a number marker: the content is the item. */
  lemma BulletContent(mark: char, spaces: string, content: string)
    requires IsBulletMark(mark) && |spaces| >= 1 && AllSpace(spaces)
    requires content == [] || !IsSpace(content[0])
    requires !NumberPrefix(content)
    ensures ListContent([mark] + spaces + content) == content
  {
    var t := [mark] + spaces + content;
    assert t[1..] == spaces + content;
    SpaceRunOver(spaces, content);
    assert t[1 + |spaces|..] == content;
  }

  /** Digits, a dot, spaces and a content: the content is the item. */
  lemma NumberedContent(digits: string, spaces: string, content: string)
    requires |digits| >= 1 && forall i :: 0 <= i < |digits| ==> IsDigit(digits[i])
    requires |spaces| >= 1 && AllSpace(spaces)
    requires content == [] || !IsSpace(content[0])
    ensures ListContent(digits + "." + spaces + content) == content
  {
    var t := digits + "." + spaces + content;
    DigitRunOver(digits, "." + spaces + content);
    assert t == digits + ("." + spaces + content);
    assert t[0] == digits[0];
    assert !BulletPrefix(t);
    var n := |digits|;
    assert t[n] == '.' && t[n + 1] == spaces[0];
    assert t[n + 1..] == spaces + content;
    SpaceRunOver(spaces, content);
    assert t[n + 1 + |spaces|..] == content;
  }

  lemma {:induction false} SpaceRunOver(spaces: string, rest: string)
    requires AllSpace(spaces) && (rest == [] || !IsSpace(rest[0]))
    ensures SpaceRun(spaces + rest) == |spaces|
  {
    if spaces == [] {
      assert spaces + rest == rest;
    } else {
      HeadTail(spaces, rest);
      SpaceRunOver(spaces[1..], rest);
    }
  }

  lemma {:induction false} DigitRunOver(digits: string, rest: string)
    requires forall i :: 0 <= i < |digits| ==> IsDigit(digits[i])
    requires rest == [] || !IsDigit(rest[0])
    ensures DigitRun(digits + rest) == |digits|
  {
    if digits == [] {
      assert digits + rest == rest;
    } else {
      HeadTail(digits, rest);
      DigitRunOver(digits[1..], rest);
    }
  }
}
