/**
 * Whole-line regular-expression rules. A pattern of the shape `/^…$/gm`
 * whose body cannot cross a line terminator rewrites a text one line at a
 * time: the text is cut at every ECMAScript line terminator, each line is
 * rewritten on its own, and the terminators stay where they were.
 */
module Lines {
  import opened JsText

  /** Index of the first line terminator of `s`, or `|s|` when `s` is a single line. */
  function LineEnd(s: string): (i: nat)
    ensures i <= |s|
    ensures i < |s| ==> IsLineTerminator(s[i])
    ensures NoTerminator(s[..i])
  {
    if s == [] then 0
    else if IsLineTerminator(s[0]) then 0
    else
      var k := LineEnd(s[1..]);
      assert s[..k + 1] == [s[0]] + s[1..][..k];
      k + 1
  }

  /** Rewrites every line of `s` with `rule`, keeping the line terminators. */
  function MapLines(s: string, rule: string -> string): string
    decreases |s|
  {
    var i := LineEnd(s);
    if i == |s| then rule(s) else rule(s[..i]) + [s[i]] + MapLines(s[i + 1..], rule)
  }

  /** A text made of a first line, a terminator and the rest is rewritten line, terminator, rest. */
  lemma MapLinesCons(line: string, t: char, rest: string, rule: string -> string)
    requires NoTerminator(line) && IsLineTerminator(t)
    ensures MapLines(line + [t] + rest, rule) == rule(line) + [t] + MapLines(rest, rule)
  {
    var s := line + [t] + rest;
    var i := LineEnd(s);
    assert s[|line|] == t;
    assert forall j :: 0 <= j < |line| ==> s[j] == line[j];
    assert i == |line|;
    assert s[..i] == line;
    assert s[i + 1..] == rest;
  }

  /** A single line is rewritten by the rule alone. */
  lemma MapLinesSingle(line: string, rule: string -> string)
    requires NoTerminator(line)
    ensures MapLines(line, rule) == rule(line)
  {
  }

  /**
   * Two whole-line passes in a row act as one pass of the composed rule, as
   * long as the first rule never puts a line terminator into a line.
   */
  lemma {:induction false} MapLinesCompose(s: string, f: string -> string, g: string -> string)
    requires forall l :: NoTerminator(l) ==> NoTerminator(f(l))
    ensures MapLines(MapLines(s, f), g) == MapLines(s, l => g(f(l)))
    decreases |s|
  {
    var i := LineEnd(s);
    if i == |s| {
      assert s[..i] == s;
      MapLinesSingle(f(s), g);
    } else {
      MapLinesCons(f(s[..i]), s[i], MapLines(s[i + 1..], f), g);
      MapLinesCompose(s[i + 1..], f, g);
    }
  }

  /** The lines of `s`, cut at every line terminator. */
  function LinesOf(s: string): (lines: seq<string>)
    ensures |lines| >= 1
    ensures forall k :: 0 <= k < |lines| ==> NoTerminator(lines[k])
    decreases |s|
  {
    var i := LineEnd(s);
    if i == |s| then [s] else [s[..i]] + LinesOf(s[i + 1..])
  }

  /** A rule that leaves each line of `s` alone leaves `s` alone. */
  lemma {:induction false} MapLinesUnchanged(s: string, rule: string -> string)
    requires forall k :: 0 <= k < |LinesOf(s)| ==> rule(LinesOf(s)[k]) == LinesOf(s)[k]
    ensures MapLines(s, rule) == s
    decreases |s|
  {
    var i := LineEnd(s);
    if i == |s| {
      assert s[..i] == s;
      assert LinesOf(s)[0] == s;
    } else {
      assert LinesOf(s)[0] == s[..i];
      var rest := LinesOf(s[i + 1..]);
      assert LinesOf(s) == [s[..i]] + rest;
      forall k | 0 <= k < |rest| ensures rule(rest[k]) == rest[k] {
        assert rest[k] == LinesOf(s)[k + 1];
      }
      MapLinesUnchanged(s[i + 1..], rule);
      assert s == s[..i] + [s[i]] + s[i + 1..];
    }
  }

  /** Five pieces regrouped after the second; stated once so that the solver need not regroup them in context. */
  lemma Regroup<T>(x: seq<T>, y: seq<T>, z: seq<T>, w: seq<T>, v: seq<T>)
    ensures x + y + z + w + v == x + y + (z + w + v)
  {
  }

  /** A whole-line rule applied to a text ending in a terminator acts on the part before it and the part after it apart. */
  lemma {:induction false} MapLinesAppend(a: string, t: char, b: string, rule: string -> string)
    requires IsLineTerminator(t)
    ensures MapLines(a + [t] + b, rule) == MapLines(a, rule) + [t] + MapLines(b, rule)
    decreases |a|
  {
    var i := LineEnd(a);
    if i == |a| {
      assert a[..i] == a;
      MapLinesCons(a, t, b, rule);
    } else {
      var line, u, rest := a[..i], a[i], a[i + 1..];
      assert a == line + [u] + rest;
      var tail := rest + [t] + b;
      Regroup(line, [u], rest, [t], b);
      MapLinesCons(line, u, tail, rule);
      MapLinesCons(line, u, rest, rule);
      MapLinesAppend(rest, t, b, rule);
      var h, m, mb := rule(line) + [u], MapLines(rest, rule), MapLines(b, rule);
      Associative(h, m + [t], mb);
      Associative(h, m, [t]);
    }
  }

  /** A whole line between two terminators is rewritten on its own, the text on either side apart. */
  lemma MapLinesAround(before: string, t1: char, line: string, t2: char, after: string, rule: string -> string)
    requires IsLineTerminator(t1) && IsLineTerminator(t2) && NoTerminator(line)
    ensures MapLines(before + [t1] + line + [t2] + after, rule)
         == MapLines(before, rule) + [t1] + rule(line) + [t2] + MapLines(after, rule)
  {
    var tail := line + [t2] + after;
    assert before + [t1] + line + [t2] + after == before + [t1] + tail;
    MapLinesAppend(before, t1, tail, rule);
    MapLinesCons(line, t2, after, rule);
    var x, y := MapLines(before, rule) + [t1], rule(line) + [t2];
    Associative(x, y, MapLines(after, rule));
    Associative(x, rule(line), [t2]);
  }
}
