/**
 * `convertirTitres`: three whole-line passes, `^# (.+)$`, `^## (.+)$` and
 * `^### (.+)$` under the `gm` flags, each turning a line made of its marker
 * and at least one more character into the matching `<hN>` element.
 */
module Headings {
  import opened JsText
  import opened Lines

  /** Heading levels the parser writes. */
  type Level = n: int | 1 <= n <= 3 witness 1

  function Digit(n: Level): char {
    if n == 1 then '1' else if n == 2 then '2' else '3'
  }

  function OpenTag(n: Level): string {
    "<h" + [Digit(n)] + ">"
  }

  function CloseTag(n: Level): string {
    "</h" + [Digit(n)] + ">"
  }

  /** `n` hashes and a space: the marker in front of a level-`n` heading. */
  function Marker(n: Level): (m: string)
    ensures |m| == n + 1 && m[n] == ' '
    ensures forall i :: 0 <= i < n ==> m[i] == '#'
  {
    if n == 1 then "# " else if n == 2 then "## " else "### "
  }

  /** One pass of `^#…# (.+)$` on one line: a marker followed by at least one character. */
  function HeadingLine(n: Level, line: string): (r: string)
    ensures StartsWith(line, Marker(n)) && |line| > n + 1 ==> r == OpenTag(n) + line[n + 1..] + CloseTag(n)
    ensures !(StartsWith(line, Marker(n)) && |line| > n + 1) ==> r == line
    ensures NoTerminator(line) ==> NoTerminator(r)
  {
    if StartsWith(line, Marker(n)) && |line| > n + 1 then OpenTag(n) + line[n + 1..] + CloseTag(n) else line
  }

  /** The three passes seen from one line. */
  function HeadingRules(line: string): string {
    HeadingLine(3, HeadingLine(2, HeadingLine(1, line)))
  }

  /** One of the three passes over a whole text. */
  function Pass(n: Level, s: string): string {
    MapLines(s, l => HeadingLine(n, l))
  }

  /** `convertirTitres(texte)`. */
  function Headings(s: string): string {
    Pass(3, Pass(2, Pass(1, s)))
  }

  lemma PassCons(n: Level, line: string, t: char, rest: string)
    requires NoTerminator(line) && IsLineTerminator(t)
    ensures Pass(n, line + [t] + rest) == HeadingLine(n, line) + [t] + Pass(n, rest)
  {
    MapLinesCons(line, t, rest, l => HeadingLine(n, l));
  }

  lemma PassSingle(n: Level, line: string)
    requires NoTerminator(line)
    ensures Pass(n, line) == HeadingLine(n, line)
  {
    MapLinesSingle(line, l => HeadingLine(n, l));
  }

  /** The three passes act as one pass of the combined per-line rule. */
  lemma {:induction false} HeadingsByLine(s: string)
    ensures Headings(s) == MapLines(s, HeadingRules)
    decreases |s|
  {
    var i := LineEnd(s);
    var line := s[..i];
    if i == |s| {
      assert line == s;
      PassSingle(1, line);
      PassSingle(2, HeadingLine(1, line));
      PassSingle(3, HeadingLine(2, HeadingLine(1, line)));
    } else {
      var t, rest := s[i], s[i + 1..];
      assert s == line + [t] + rest;
      var l1 := HeadingLine(1, line);
      var l2 := HeadingLine(2, l1);
      PassCons(1, line, t, rest);
      PassCons(2, l1, t, Pass(1, rest));
      PassCons(3, l2, t, Pass(2, Pass(1, rest)));
      HeadingsByLine(rest);
      MapLinesCons(line, t, rest, HeadingRules);
    }
  }

  /** A tag line written by a pass starts with `<`, so no later pass fires on it. */
  lemma TagLineStays(n: Level, m: Level, t: string)
    ensures HeadingLine(m, OpenTag(n) + t + CloseTag(n)) == OpenTag(n) + t + CloseTag(n)
  {
    var l := OpenTag(n) + t + CloseTag(n);
    assert l[0] == '<';
    assert !StartsWith(l, Marker(m)) by { assert Marker(m)[0] == '#'; }
  }

  /**
   * A whole line of `n` hashes, a space and a non-empty rest `t` becomes
   * `<hn>t</hn>`. The passes for shorter markers do not fire on it: the `# `
   * rule needs a space right after a single `#`.
   */
  lemma HeadingLineConverted(n: Level, t: string)
    requires |t| >= 1
    ensures HeadingRules(Marker(n) + t) == OpenTag(n) + t + CloseTag(n)
  {
    var l := Marker(n) + t;
    assert l[..n + 1] == Marker(n);
    assert l[n + 1..] == t;
    forall m: Level | m < n ensures HeadingLine(m, l) == l {
      assert l[m] == '#' && Marker(m)[m] == ' ';
      assert !StartsWith(l, Marker(m)) by { assert l[..m + 1][m] == l[m]; }
    }
    if n == 1 {
      TagLineStays(1, 2, t);
      TagLineStays(1, 3, t);
    } else if n == 2 {
      TagLineStays(2, 3, t);
    }
  }

  /** The `# ` rule leaves a `##` line alone. */
  lemma H1SkipsH2Line(x: string)
    ensures HeadingLine(1, "##" + x) == "##" + x
  {
    var l := "##" + x;
    assert l[1] == '#';
    assert !StartsWith(l, Marker(1)) by { assert l[..2][1] == l[1]; }
  }

  /** A line that does not start with `#` is left alone. */
  lemma PlainLineStays(line: string)
    requires line == [] || line[0] != '#'
    ensures HeadingRules(line) == line
  {
    forall m: Level ensures HeadingLine(m, line) == line {
      if |line| >= |Marker(m)| { assert line[..|Marker(m)|][0] == line[0]; }
    }
  }

  lemma MarkerLineIsLine(n: Level, t: string)
    requires NoTerminator(t)
    ensures NoTerminator(Marker(n) + t)
  {
    var line := Marker(n) + t;
    forall i | 0 <= i < |line| ensures !IsLineTerminator(line[i]) {
      if i >= n + 1 { assert line[i] == t[i - n - 1]; }
    }
  }

  /** Inside a text, each line is converted in place and the text around it is converted on its own. */
  lemma LineInText(before: string, t1: char, line: string, t2: char, after: string)
    requires IsLineTerminator(t1) && IsLineTerminator(t2) && NoTerminator(line)
    ensures Headings(before + [t1] + line + [t2] + after)
         == Headings(before) + [t1] + HeadingRules(line) + [t2] + Headings(after)
  {
    HeadingsByLine(before + [t1] + line + [t2] + after);
    MapLinesAround(before, t1, line, t2, after, HeadingRules);
    HeadingsByLine(before);
    HeadingsByLine(after);
  }

  /** A heading line inside a text becomes its element, whatever surrounds it. */
  lemma HeadingInText(before: string, t1: char, n: Level, t: string, t2: char, after: string)
    requires IsLineTerminator(t1) && IsLineTerminator(t2) && |t| >= 1 && NoTerminator(t)
    ensures Headings(before + [t1] + (Marker(n) + t) + [t2] + after)
         == Headings(before) + [t1] + (OpenTag(n) + t + CloseTag(n)) + [t2] + Headings(after)
  {
    MarkerLineIsLine(n, t);
    LineInText(before, t1, Marker(n) + t, t2, after);
    HeadingLineConverted(n, t);
  }
}
