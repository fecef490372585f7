/**
 * The inline rules of `traiterSlide`, each a global left-to-right scan:
 * `convertirFormatageTexte` (`\*\*(.+?)\*\*` then `\*(.+?)\*`),
 * `convertirCode` (`` `([^`]+)` ``) and `convertirLiens`
 * (`\[([^\]]+)\]\(([^\)]+)\)`).
 */
module Inline {
  import opened JsText
  import opened Segments

  /** What a pattern finds at the front of the text still to scan: nothing, or `len` characters to be replaced by `out`. */
  datatype Match = NoMatch | Match(out: string, len: nat)

  /** A rule whose matches are never empty and never run past the text. */
  ghost predicate Advances(at: string -> Match) {
    forall t :: t != [] && at(t).Match? ==> 1 <= at(t).len <= |t|
  }

  /** A rule that can only match text starting with `c`. */
  ghost predicate Anchored(at: string -> Match, c: char) {
    forall t :: t != [] && t[0] != c ==> at(t) == NoMatch
  }

  /**
   * `s.replace(re, …)` for a global `re`: scanning from the left, a match at
   * the front is replaced and skipped, and otherwise one character is copied
   * and the scan moves on by one.
   */
  function ReplaceAll(s: string, at: string -> Match): string
    requires Advances(at)
    decreases |s|
  {
    if s == [] then []
    else
      var m := at(s);
      if m.Match? then m.out + ReplaceAll(s[m.len..], at) else [s[0]] + ReplaceAll(s[1..], at)
  }

  /** A match at the front is replaced, and the scan resumes after it. */
  lemma ReplaceAllMatch(s: string, at: string -> Match)
    requires Advances(at) && s != [] && at(s).Match?
    ensures ReplaceAll(s, at) == at(s).out + ReplaceAll(s[at(s).len..], at)
  {
  }

  /** Without a match at the front, the first character is copied. */
  lemma ReplaceAllCopy(s: string, at: string -> Match)
    requires Advances(at) && s != [] && at(s) == NoMatch
    ensures ReplaceAll(s, at) == [s[0]] + ReplaceAll(s[1..], at)
  {
  }

  /** A prefix without the character every match starts with is copied as it is. */
  lemma {:induction false} ReplaceAllPrefix(a: string, b: string, at: string -> Match, c: char)
    requires Advances(at) && Anchored(at, c) && c !in a
    ensures ReplaceAll(a + b, at) == a + ReplaceAll(b, at)
  {
    if a == [] {
      assert a + b == b;
    } else {
      HeadTail(a, b);
      assert at(a + b) == NoMatch;
      ReplaceAllCopy(a + b, at);
      assert c !in a[1..] by { assert forall i :: 0 <= i < |a[1..]| ==> a[1..][i] == a[i + 1]; }
      ReplaceAllPrefix(a[1..], b, at, c);
      Associative([a[0]], a[1..], ReplaceAll(b, at));
      assert [a[0]] + a[1..] == a;
    }
  }

  /** Text with no match at any position is left alone. */
  lemma {:induction false} ReplaceAllUnchanged(s: string, at: string -> Match)
    requires Advances(at) && forall k :: 0 <= k < |s| ==> at(s[k..]) == NoMatch
    ensures ReplaceAll(s, at) == s
  {
    if s != [] {
      assert at(s[0..]) == NoMatch && s[0..] == s;
      ReplaceAllCopy(s, at);
      forall k | 0 <= k < |s[1..]| ensures at(s[1..][k..]) == NoMatch {
        assert s[1..][k..] == s[k + 1..];
      }
      ReplaceAllUnchanged(s[1..], at);
      assert s == [s[0]] + s[1..];
    }
  }

  /** Text without that character is left alone. */
  lemma ReplaceAllNone(s: string, at: string -> Match, c: char)
    requires Advances(at) && Anchored(at, c) && c !in s
    ensures ReplaceAll(s, at) == s
  {
    ReplaceAllPrefix(s, [], at, c);
    assert s + [] == s;
  }

  /**
   * The lazy closing delimiter for a `.+?` body that starts `t`: the first
   * occurrence of `d` at a position `e >= 1`. A match needs `e < |t|` and no
   * line terminator in the body `t[..e]`; no later `e` can do better, since
   * every longer body holds the same terminator.
   */
  function LazyClose(t: string, d: string): (e: nat)
    requires |t| >= 1 && |d| > 0
    ensures 1 <= e <= |t|
    ensures e < |t| ==> OccursAt(t, d, e) && e + |d| <= |t|
    ensures forall j :: 1 <= j < e ==> !OccursAt(t, d, j)
  {
    var k := Find(t[1..], d);
    OccursShift(t, d);
    forall j | 1 <= j < k + 1 ensures !OccursAt(t, d, j) {
      assert !OccursAt(t[1..], d, j - 1);
    }
    assert k < |t| - 1 ==> OccursAt(t, d, k + 1) by {
      if k < |t| - 1 { assert OccursAt(t[1..], d, k); }
    }
    k + 1
  }

  lemma Spread<T>(a: seq<T>, o: seq<T>, m: seq<T>, c: seq<T>, r: seq<T>)
    ensures a + (o + m + c + r) == a + o + m + c + r
  {
  }

  /** `D(.+?)D` at the front of `t`, where `D` is the delimiter `d`, replaced by `open`, the body and `close`. */
  function EmphasisAt(t: string, d: string, open: string, close: string): (m: Match)
    requires |d| > 0
    ensures m.Match? ==> 1 <= m.len <= |t|
  {
    if StartsWith(t, d) && |t| > |d| then
      var u := t[|d|..];
      var e := LazyClose(u, d);
      if e < |u| && NoTerminator(u[..e]) then Match(open + u[..e] + close, |d| + e + |d|) else NoMatch
    else NoMatch
  }

  function EmphasisRule(d: string, open: string, close: string): (at: string -> Match)
    requires |d| > 0
    ensures Advances(at) && Anchored(at, d[0])
    ensures forall t :: at(t) == EmphasisAt(t, d, open, close)
  {
    var at := t => EmphasisAt(t, d, open, close);
    assert Anchored(at, d[0]) by {
      forall t | t != [] && t[0] != d[0] ensures at(t) == NoMatch {
        assert !StartsWith(t, d) by { if |d| <= |t| { assert t[..|d|][0] == t[0]; } }
      }
    }
    at
  }

  /** `s.replace(/D(.+?)D/g, open + '$1' + close)` where `D` is the delimiter `d`. */
  function Emphasis(s: string, d: string, open: string, close: string): string
    requires |d| > 0
  {
    ReplaceAll(s, EmphasisRule(d, open, close))
  }

  function Bold(s: string): string {
    Emphasis(s, "**", "<strong>", "</strong>")
  }

  function Italic(s: string): string {
    Emphasis(s, "*", "<em>", "</em>")
  }

  /** `convertirFormatageTexte(texte)`: bold first, then italic. */
  function Formatting(s: string): string {
    Italic(Bold(s))
  }

  /** A prefix holding no `d[0]` is copied as it is. */
  lemma EmphasisPrefix(a: string, b: string, d: string, open: string, close: string)
    requires |d| > 0 && d[0] !in a
    ensures Emphasis(a + b, d, open, close) == a + Emphasis(b, d, open, close)
  {
    ReplaceAllPrefix(a, b, EmphasisRule(d, open, close), d[0]);
  }

  /** Text without the delimiter's character is left alone. */
  lemma EmphasisNoDelimiter(s: string, d: string, open: string, close: string)
    requires |d| > 0 && d[0] !in s
    ensures Emphasis(s, d, open, close) == s
  {
    ReplaceAllNone(s, EmphasisRule(d, open, close), d[0]);
  }

  /** The first occurrence of `pat` sits right after a prefix that holds none of its first character. */
  lemma FindAfter(x: string, pat: string, y: string)
    requires |pat| > 0 && pat[0] !in x
    ensures Find(x + pat + y, pat) == |x|
  {
    var s := x + pat + y;
    assert s[|x|..|x| + |pat|] == pat;
    assert OccursAt(s, pat, |x|);
    forall j | 0 <= j < |x| ensures !OccursAt(s, pat, j) {
      if j + |pat| <= |s| { assert s[j..j + |pat|][0] == x[j]; }
    }
  }

  /** The lazy body of `x D y` ends where `D` follows `x`, when `x` is not empty and holds no `D[0]` after its first character. */
  lemma LazyCloseAt(t: string, d: string, x: string, y: string)
    requires |d| > 0 && |x| >= 1 && t == x + d + y && d[0] !in x[1..]
    ensures LazyClose(t, d) == |x|
  {
    assert t[1..] == x[1..] + d + y;
    FindAfter(x[1..], d, y);
  }

  /** The emphasis match read off its lazy body. */
  lemma EmphasisAtBody(t: string, d: string, open: string, close: string, e: nat)
    requires |d| > 0 && StartsWith(t, d) && |t| > |d| && LazyClose(t[|d|..], d) == e
    requires e < |t| - |d| && NoTerminator(t[|d|..][..e])
    ensures EmphasisAt(t, d, open, close) == Match(open + t[|d|..][..e] + close, |d| + e + |d|)
  {
  }

  /** `D m D` at the front is a match of the whole of it, with body `m`. */
  lemma EmphasisAtPair(m: string, b: string, d: string, open: string, close: string)
    requires |d| > 0 && d[0] !in m && |m| >= 1 && NoTerminator(m)
    ensures EmphasisAt(d + m + d + b, d, open, close) == Match(open + m + close, |d| + |m| + |d|)
  {
    var s := d + m + d + b;
    assert s[..|d|] == d;
    var t := s[|d|..];
    assert t == m + d + b;
    assert d[0] !in m[1..] by { assert forall i :: 0 <= i < |m[1..]| ==> m[1..][i] == m[i + 1]; }
    LazyCloseAt(t, d, m, b);
    assert t[..|m|] == m;
    EmphasisAtBody(s, d, open, close, |m|);
  }

  /** A delimited body at the front is rewritten: `D m D b` becomes `open m close` and the rewrite of `b`. */
  lemma EmphasisAtFront(m: string, b: string, d: string, open: string, close: string)
    requires |d| > 0 && d[0] !in m && |m| >= 1 && NoTerminator(m)
    ensures Emphasis(d + m + d + b, d, open, close) == open + m + close + Emphasis(b, d, open, close)
  {
    var s := d + m + d + b;
    var at := EmphasisRule(d, open, close);
    EmphasisAtPair(m, b, d, open, close);
    ReplaceAllMatch(s, at);
    assert s[|d| + |m| + |d|..] == b;
  }

  /**
   * A delimited body is rewritten: with no delimiter character before it or
   * inside it and no line terminator inside it, `a D m D b` becomes
   * `a open m close` followed by the rewrite of `b`.
   */
  lemma EmphasisPair(a: string, m: string, b: string, d: string, open: string, close: string)
    requires |d| > 0 && d[0] !in a && d[0] !in m && |m| >= 1 && NoTerminator(m)
    ensures Emphasis(a + d + m + d + b, d, open, close) == a + open + m + close + Emphasis(b, d, open, close)
  {
    var s := d + m + d + b;
    assert a + d + m + d + b == a + s;
    EmphasisPrefix(a, s, d, open, close);
    EmphasisAtFront(m, b, d, open, close);
    Spread(a, open, m, close, Emphasis(b, d, open, close));
  }

  lemma NoStarInStrong(m: string)
    requires '*' !in m
    ensures '*' !in "<strong>" + m + "</strong>"
  {
    assert '*' !in "<strong>" && '*' !in "</strong>";
  }

  /** Bold runs first: `**a**` gives a `strong` element and no `em`. */
  lemma BoldBeforeItalic(m: string)
    requires '*' !in m && |m| >= 1 && NoTerminator(m)
    ensures Formatting("**" + m + "**") == "<strong>" + m + "</strong>"
  {
    EmphasisAtFront(m, [], "**", "<strong>", "</strong>");
    assert "**" + m + "**" + [] == "**" + m + "**";
    var r := "<strong>" + m + "</strong>";
    assert Bold("**" + m + "**") == r + [];
    assert r + [] == r;
    NoStarInStrong(m);
    EmphasisNoDelimiter(r, "*", "<em>", "</em>");
  }

  /** A single `*` at the front of a text with no other `*` is no match. */
  lemma LoneStarNoMatch(s: string)
    requires s != [] && (s[0] == '*' ==> forall j :: 1 <= j < |s| ==> s[j] != '*')
    ensures EmphasisAt(s, "*", "<em>", "</em>") == NoMatch
  {
    if StartsWith(s, "*") && |s| > 1 {
      assert s[0] == s[..1][0];
      var t := s[1..];
      forall j | 0 <= j <= |t[1..]| ensures !OccursAt(t[1..], "*", j) {
        if j + 1 <= |t[1..]| { assert t[1..][j..j + 1][0] == s[j + 2]; }
      }
      assert LazyClose(t, "*") == |t|;
    }
  }

  /** A text with at most one `*` keeps it literal: a lone star is never italic. */
  lemma LoneStarLiteral(s: string)
    requires forall i, j :: 0 <= i < j < |s| ==> !(s[i] == '*' && s[j] == '*')
    ensures Italic(s) == s
  {
    var at := EmphasisRule("*", "<em>", "</em>");
    forall k | 0 <= k < |s| ensures at(s[k..]) == NoMatch {
      var t := s[k..];
      forall j | 1 <= j < |t| && t[0] == '*' ensures t[j] != '*' {
        assert t[0] == s[k] && t[j] == s[k + j];
      }
      LoneStarNoMatch(t);
    }
    ReplaceAllUnchanged(s, at);
  }

  /** `` `([^`]+)` `` at the front of `t`: a backtick, a non-empty run without backticks, a backtick. */
  function CodeAt(t: string): (m: Match)
    ensures m.Match? ==> 1 <= m.len <= |t|
  {
    if t != [] && t[0] == '`' then
      var i := IndexOf(t[1..], '`');
      if 0 < i < |t| - 1 then Match("<code>" + t[1..i + 1] + "</code>", i + 2) else NoMatch
    else NoMatch
  }

  lemma CodeRule()
    ensures Advances(CodeAt) && Anchored(CodeAt, '`')
  {
  }

  /** `texte.replace(/`([^`]+)`/g, '<code>$1</code>')`. */
  function Code(s: string): string {
    CodeRule();
    ReplaceAll(s, CodeAt)
  }

  lemma CodePrefix(a: string, b: string)
    requires '`' !in a
    ensures Code(a + b) == a + Code(b)
  {
    CodeRule();
    ReplaceAllPrefix(a, b, CodeAt, '`');
  }

  /** `` `m` `` at the front is a match of the whole of it. */
  lemma CodeAtPair(m: string, b: string)
    requires '`' !in m && |m| >= 1
    ensures CodeAt("`" + m + "`" + b) == Match("<code>" + m + "</code>", |m| + 2)
  {
    var s := "`" + m + "`" + b;
    assert s[1..] == m + "`" + b;
    assert s[1..][..|m|] == m && s[1..][|m|] == '`';
    IndexOfAt(s[1..], '`', |m|);
    assert s[1..|m| + 1] == m;
  }

  lemma CodeAtFront(m: string, b: string)
    requires '`' !in m && |m| >= 1
    ensures Code("`" + m + "`" + b) == "<code>" + m + "</code>" + Code(b)
  {
    var s := "`" + m + "`" + b;
    assert s[|m| + 2..] == b;
    CodeAtPair(m, b);
    CodeRule();
    ReplaceAllMatch(s, CodeAt);
  }

  /** A non-empty backtick-free run between backticks becomes a `code` element. */
  lemma CodePair(a: string, m: string, b: string)
    requires '`' !in a && '`' !in m && |m| >= 1
    ensures Code(a + "`" + m + "`" + b) == a + "<code>" + m + "</code>" + Code(b)
  {
    var s := "`" + m + "`" + b;
    assert a + "`" + m + "`" + b == a + s;
    CodePrefix(a, s);
    CodeAtFront(m, b);
    Spread(a, "<code>", m, "</code>", Code(b));
  }

  /** An empty pair of backticks stays literal: the first is copied and scanning resumes at the second. */
  lemma EmptyCodeLiteral(b: string)
    ensures Code("``" + b) == "`" + Code("`" + b)
  {
    var s := "``" + b;
    assert s[1..] == "`" + b;
    assert IndexOf(s[1..], '`') == 0;
    CodeRule();
    ReplaceAllCopy(s, CodeAt);
  }

  /** The markup a link becomes. */
  function Anchor(caption: string, url: string): string {
    "<a href=\"" + url + "\" target=\"_blank\">" + caption + "</a>"
  }

  /**
   * The link match at the front of `s` as (end of caption, end of match), with
   * 0 as the end of match when there is none: the caption ends at the first
   * `]`, a `(` must follow, and the address ends at the next `)`; both must be
   * non-empty.
   */
  function LinkMatch(s: string): (m: (nat, nat))
    ensures m.1 > 0 ==> 2 <= m.0 && m.0 + 3 < m.1 <= |s|
  {
    if s == [] || s[0] != '[' then (0, 0)
    else
      var i := IndexOf(s[1..], ']');
      if 0 < i && i + 2 < |s| && s[i + 2] == '(' then
        var j := IndexOf(s[i + 3..], ')');
        if 0 < j < |s| - i - 3 then (i + 1, i + j + 4) else (0, 0)
      else (0, 0)
  }

  /** `\[([^\]]+)\]\(([^\)]+)\)` at the front of `t`, replaced by an anchor. */
  function LinkAt(t: string): (m: Match)
    ensures m.Match? ==> 1 <= m.len <= |t|
  {
    var p := LinkMatch(t);
    if p.1 > 0 then Match(Anchor(t[1..p.0], t[p.0 + 2..p.1 - 1]), p.1) else NoMatch
  }

  lemma LinkRule()
    ensures Advances(LinkAt) && Anchored(LinkAt, '[')
  {
  }

  /** `texte.replace(/\[([^\]]+)\]\(([^\)]+)\)/g, …)`. */
  function Links(s: string): string {
    LinkRule();
    ReplaceAll(s, LinkAt)
  }

  lemma LinksPrefix(a: string, b: string)
    requires '[' !in a
    ensures Links(a + b) == a + Links(b)
  {
    LinkRule();
    ReplaceAllPrefix(a, b, LinkAt, '[');
  }

  /** The first `c` sits right after a prefix without `c`. */
  lemma IndexOfAfter(x: string, c: char, y: string)
    requires c !in x
    ensures IndexOf(x + [c] + y, c) == |x|
  {
    var s := x + [c] + y;
    assert s[..|x|] == x;
    assert s[|x|] == c;
    IndexOfAt(s, c, |x|);
  }

  /** The link match read off the two searches it makes. */
  lemma LinkMatchFrom(s: string, i: nat, j: nat)
    requires s != [] && s[0] == '[' && IndexOf(s[1..], ']') == i && 0 < i && i + 2 < |s| && s[i + 2] == '('
    requires IndexOf(s[i + 3..], ')') == j && 0 < j < |s| - i - 3
    ensures LinkMatch(s) == (i + 1, i + j + 4)
  {
  }

  /** The two searches the link match makes in `[l](u)b`. */
  lemma LinkSearches(s: string, caption: string, url: string, b: string)
    requires ']' !in caption && ')' !in url
    requires s == "[" + caption + "](" + url + ")" + b
    ensures s[0] == '[' && IndexOf(s[1..], ']') == |caption| && |caption| + 2 < |s| && s[|caption| + 2] == '('
    ensures IndexOf(s[|caption| + 3..], ')') == |url|
  {
    var n := |caption|;
    assert s[1..] == caption + [']'] + ("(" + url + ")" + b);
    IndexOfAfter(caption, ']', "(" + url + ")" + b);
    assert s[n + 2] == '(';
    assert s[n + 3..] == url + [')'] + b;
    IndexOfAfter(url, ')', b);
  }

  /** Where the link match of `[l](u)b` ends its caption and itself. */
  lemma LinkMatchShape(caption: string, url: string, b: string)
    requires ']' !in caption && |caption| >= 1 && ')' !in url && |url| >= 1
    ensures LinkMatch("[" + caption + "](" + url + ")" + b) == (|caption| + 1, |caption| + |url| + 4)
  {
    var s := "[" + caption + "](" + url + ")" + b;
    LinkSearches(s, caption, url, b);
    LinkMatchFrom(s, |caption|, |url|);
  }

  /** `[l](u)` at the front is a match of the whole of it. */
  lemma LinkAtPair(caption: string, url: string, b: string)
    requires ']' !in caption && |caption| >= 1 && ')' !in url && |url| >= 1
    ensures LinkAt("[" + caption + "](" + url + ")" + b) == Match(Anchor(caption, url), |caption| + |url| + 4)
  {
    var s := "[" + caption + "](" + url + ")" + b;
    var n := |caption|;
    assert s[1..n + 1] == caption;
    assert s[n + 3..n + |url| + 3] == url;
    LinkMatchShape(caption, url, b);
  }

  lemma LinkAtFront(caption: string, url: string, b: string)
    requires ']' !in caption && |caption| >= 1 && ')' !in url && |url| >= 1
    ensures Links("[" + caption + "](" + url + ")" + b) == Anchor(caption, url) + Links(b)
  {
    var s := "[" + caption + "](" + url + ")" + b;
    assert s[|caption| + |url| + 4..] == b;
    LinkAtPair(caption, url, b);
    LinkRule();
    ReplaceAllMatch(s, LinkAt);
  }

  /** `[l](u)` becomes an anchor on `u` that opens a new tab, with `l` and `u` copied verbatim. */
  lemma LinkPair(a: string, caption: string, url: string, b: string)
    requires '[' !in a && ']' !in caption && |caption| >= 1 && ')' !in url && |url| >= 1
    ensures Links(a + "[" + caption + "](" + url + ")" + b) == a + Anchor(caption, url) + Links(b)
  {
    var s := "[" + caption + "](" + url + ")" + b;
    assert a + "[" + caption + "](" + url + ")" + b == a + s;
    LinksPrefix(a, s);
    LinkAtFront(caption, url, b);
    Associative(a, Anchor(caption, url), Links(b));
  }

  /** Text without `[` has no link. */
  lemma LinksNone(s: string)
    requires '[' !in s
    ensures Links(s) == s
  {
    LinkRule();
    ReplaceAllNone(s, LinkAt, '[');
  }

  /** Text without a backtick has no code span. */
  lemma CodeNone(s: string)
    requires '`' !in s
    ensures Code(s) == s
  {
    CodeRule();
    ReplaceAllNone(s, CodeAt, '`');
  }
}
