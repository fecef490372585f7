/**
 * The JavaScript string primitives the slide pipeline relies on: the
 * white-space and line-terminator classes of ECMAScript (`\s`, `trim`, and
 * the characters `.` refuses), `trim`, `split` on one character, `join`,
 * `.length` in UTF-16 code units, and the filter `s => s.trim()` that drops
 * blank strings.
 */
module JsText {

  /** ECMAScript LineTerminator: what `.` does not match and `^`/`$` stand beside under the `m` flag. */
  predicate IsLineTerminator(c: char) {
    c == '\n' || c == '\r' || c as int == 0x2028 || c as int == 0x2029
  }

  /** ECMAScript WhiteSpace or LineTerminator: the class `\s` and the characters `trim` removes. */
  predicate IsSpace(c: char) {
    var n := c as int;
    IsLineTerminator(c) || n == 0x20 || n == 0x09 || n == 0x0B || n == 0x0C || n == 0xA0
    || n == 0x1680 || (0x2000 <= n <= 0x200A) || n == 0x202F || n == 0x205F || n == 0x3000
    || n == 0xFEFF
  }

  predicate AllSpace(s: string) {
    forall i :: 0 <= i < |s| ==> IsSpace(s[i])
  }

  lemma AllSpaceJoin(a: string, b: string)
    requires AllSpace(a) && AllSpace(b)
    ensures AllSpace(a + b)
  {
    forall i | 0 <= i < |a + b| ensures IsSpace((a + b)[i]) {
      if i < |a| { assert (a + b)[i] == a[i]; } else { assert (a + b)[i] == b[i - |a|]; }
    }
  }

  predicate NoTerminator(s: string) {
    forall i :: 0 <= i < |s| ==> !IsLineTerminator(s[i])
  }

  predicate StartsWith(s: string, prefix: string) {
    |prefix| <= |s| && s[..|prefix|] == prefix
  }

  /** Number of leading characters of `s` that are white space. */
  function SpaceRun(s: string): (n: nat)
    ensures n <= |s|
    ensures AllSpace(s[..n])
    ensures n < |s| ==> !IsSpace(s[n])
  {
    if s != [] && IsSpace(s[0]) then
      var k := SpaceRun(s[1..]);
      assert s[..k + 1] == [s[0]] + s[1..][..k];
      k + 1
    else 0
  }

  function TrimStart(s: string): (r: string)
    ensures |r| <= |s| && r == s[|s| - |r|..]
    ensures AllSpace(s[..|s| - |r|])
    ensures r == [] || !IsSpace(r[0])
  {
    s[SpaceRun(s)..]
  }

  function TrimEnd(s: string): (r: string)
    ensures |r| <= |s| && r == s[..|r|]
    ensures AllSpace(s[|r|..])
    ensures r == [] || !IsSpace(r[|r| - 1])
  {
    if s != [] && IsSpace(s[|s| - 1]) then
      var p := s[..|s| - 1];
      var r := TrimEnd(p);
      assert s[|r|..] == p[|r|..] + [s[|s| - 1]];
      AllSpaceJoin(p[|r|..], [s[|s| - 1]]);
      r
    else s
  }

  /** `String.prototype.trim`: the infix left once the white space at both ends is gone. */
  function Trim(s: string): (r: string)
    ensures |r| <= |s|
    ensures var k := |s| - |TrimStart(s)|;
      k + |r| <= |s| && r == s[k..k + |r|] && AllSpace(s[..k]) && AllSpace(s[k + |r|..])
    ensures r == [] || (!IsSpace(r[0]) && !IsSpace(r[|r| - 1]))
  {
    var t := TrimStart(s);
    var r := TrimEnd(t);
    assert s[|s| - |t| + |r|..] == t[|r|..];
    r
  }

  /** A string is blank, i.e. `s.trim()` is falsy, exactly when all its characters are white space. */
  lemma BlankIff(s: string)
    ensures Trim(s) == [] <==> AllSpace(s)
  {
    var k := |s| - |TrimStart(s)|;
    if Trim(s) == [] {
      assert k == |s|;
      assert s[..k] == s;
    } else {
      assert !IsSpace(s[k]);
    }
  }

  /** A string that neither starts nor ends with white space is its own trim. */
  lemma TrimNoop(s: string)
    requires s == [] || (!IsSpace(s[0]) && !IsSpace(s[|s| - 1]))
    ensures Trim(s) == s
  {
  }

  /** UTF-16 code units of one character: two for a character outside the Basic Multilingual Plane. */
  function CharUnits(c: char): nat {
    if c as int > 0xFFFF then 2 else 1
  }

  /** `.length` of a JavaScript string: its number of UTF-16 code units. */
  function Units(s: string): (n: nat)
    ensures |s| <= n <= 2 * |s|
  {
    if s == [] then 0 else CharUnits(s[0]) + Units(s[1..])
  }

  lemma {:induction false} UnitsAppend(a: string, b: string)
    ensures Units(a + b) == Units(a) + Units(b)
  {
    if a != [] {
      HeadTail(a, b);
      UnitsAppend(a[1..], b);
    } else {
      assert a + b == b;
    }
  }

  /** Index of the first `c` in `s`, or `|s|` when there is none. */
  function IndexOf(s: string, c: char): (i: nat)
    ensures i <= |s|
    ensures i < |s| ==> s[i] == c
  {
    if s == [] then 0
    else if s[0] == c then 0
    else IndexOf(s[1..], c) + 1
  }

  /** No `c` comes before the one found, and none is found exactly when there is none. */
  lemma {:induction false} IndexOfFirst(s: string, c: char)
    ensures c !in s[..IndexOf(s, c)]
    ensures IndexOf(s, c) == |s| <==> c !in s
  {
    if s != [] && s[0] != c {
      var k := IndexOf(s[1..], c);
      IndexOfFirst(s[1..], c);
      assert s[..k + 1] == [s[0]] + s[1..][..k];
      assert s == [s[0]] + s[1..];
    }
  }

  /** The first `c` of `x` is at `i` when `x[i]` is `c` and no earlier character is. */
  lemma {:induction false} IndexOfAt(x: string, c: char, i: nat)
    requires i < |x| && x[i] == c && c !in x[..i]
    ensures IndexOf(x, c) == i
  {
    if i > 0 {
      assert x[..i][0] == x[0];
      assert x[1..][..i - 1] == x[..i][1..];
      IndexOfAt(x[1..], c, i - 1);
    }
  }

  /** Concatenation regroups freely; stated once so that long terms need not be regrouped by the solver. */
  lemma Associative<T>(a: seq<T>, b: seq<T>, c: seq<T>)
    ensures a + b + c == a + (b + c)
  {
  }

  /** The head and tail of a concatenation whose first part is not empty; stated once for the same reason. */
  lemma HeadTail<T>(a: seq<T>, b: seq<T>)
    requires a != []
    ensures (a + b)[0] == a[0] && (a + b)[1..] == a[1..] + b
  {
  }

  /** `parts.join(sep)`. */
  function Join(parts: seq<string>, sep: string): string {
    if parts == [] then []
    else if |parts| == 1 then parts[0]
    else parts[0] + sep + Join(parts[1..], sep)
  }

  /** `parts.join('')`. */
  function Concat(parts: seq<string>): string {
    if parts == [] then [] else parts[0] + Concat(parts[1..])
  }

  lemma ConcatCons(x: string, rest: seq<string>)
    ensures Concat([x] + rest) == x + Concat(rest)
  {
    HeadTail([x], rest);
  }

  lemma {:induction false} ConcatAppend(a: seq<string>, b: seq<string>)
    ensures Concat(a + b) == Concat(a) + Concat(b)
  {
    if a != [] {
      HeadTail(a, b);
      ConcatAppend(a[1..], b);
    } else {
      assert a + b == b;
    }
  }

  /** `s.split(c)` for a one-character separator: the pieces between the occurrences of `c`. */
  function Split(s: string, c: char): (parts: seq<string>)
    ensures |parts| >= 1
    ensures forall k :: 0 <= k < |parts| ==> c !in parts[k]
    ensures Join(parts, [c]) == s
    decreases |s|
  {
    var i := IndexOf(s, c);
    IndexOfFirst(s, c);
    if i == |s| then [s]
    else
      var rest := Split(s[i + 1..], c);
      assert s == s[..i] + [c] + s[i + 1..];
      [s[..i]] + rest
  }

  /** A join of two or more pieces, taken apart at its first separator. */
  lemma JoinFirst(parts: seq<string>, c: char)
    requires |parts| > 1 && c !in parts[0]
    ensures IndexOf(Join(parts, [c]), c) == |parts[0]|
    ensures Join(parts, [c])[..|parts[0]|] == parts[0]
    ensures Join(parts, [c])[|parts[0]| + 1..] == Join(parts[1..], [c])
  {
    var s := Join(parts, [c]);
    var n := |parts[0]|;
    assert s == parts[0] + [c] + Join(parts[1..], [c]);
    assert s[..n] == parts[0];
    assert s[n] == c;
    IndexOfAt(s, c, n);
    assert s[n + 1..] == Join(parts[1..], [c]);
  }

  /** Split unfolded once, where the separator occurs. */
  lemma SplitAt(s: string, c: char, i: nat)
    requires i < |s| && i == IndexOf(s, c)
    ensures Split(s, c) == [s[..i]] + Split(s[i + 1..], c)
  {
  }

  /** Splitting undoes joining when no piece holds the separator. */
  lemma {:induction false} SplitJoin(parts: seq<string>, c: char)
    requires |parts| >= 1
    requires forall k :: 0 <= k < |parts| ==> c !in parts[k]
    ensures Split(Join(parts, [c]), c) == parts
  {
    if |parts| > 1 {
      var s := Join(parts, [c]);
      JoinFirst(parts, c);
      SplitAt(s, c, |parts[0]|);
      SplitJoin(parts[1..], c);
      assert parts == [parts[0]] + parts[1..];
    } else {
      assert IndexOf(parts[0], c) == |parts[0]|;
    }
  }

  /** `xs.filter(p)`: the elements that `p` accepts, in order. */
  function Filter<T>(xs: seq<T>, p: T -> bool): (r: seq<T>)
    ensures |r| <= |xs|
  {
    if xs == [] then [] else (if p(xs[0]) then [xs[0]] else []) + Filter(xs[1..], p)
  }

  /** Every element the filter keeps is accepted. */
  lemma {:induction false} FilterAccepted<T>(xs: seq<T>, p: T -> bool)
    ensures forall k :: 0 <= k < |Filter(xs, p)| ==> p(Filter(xs, p)[k])
  {
    if xs != [] {
      FilterAccepted(xs[1..], p);
    }
  }

  /** The filter unfolded at a first element. */
  lemma FilterCons<T>(x: T, rest: seq<T>, p: T -> bool)
    ensures Filter([x] + rest, p) == (if p(x) then [x] else []) + Filter(rest, p)
  {
    HeadTail([x], rest);
  }

  /** Filtering a concatenation filters each part. */
  lemma {:induction false} FilterAppend<T>(a: seq<T>, b: seq<T>, p: T -> bool)
    ensures Filter(a + b, p) == Filter(a, p) + Filter(b, p)
  {
    if a != [] {
      HeadTail(a, b);
      FilterAppend(a[1..], b, p);
      Associative(if p(a[0]) then [a[0]] else [], Filter(a[1..], p), Filter(b, p));
    } else {
      assert a + b == b;
    }
  }

  /** `p => p.trim()` taken as a condition: the trimmed string is not empty. */
  predicate Filled(s: string) {
    Trim(s) != []
  }

  /** `parts.filter(p => p.trim())`: the pieces that are not blank, in order. */
  function NonBlank(parts: seq<string>): (r: seq<string>)
    ensures |r| <= |parts|
  {
    Filter(parts, Filled)
  }

  /** What the filter keeps is not blank. */
  lemma NonBlankFilled(parts: seq<string>)
    ensures forall k :: 0 <= k < |NonBlank(parts)| ==> Trim(NonBlank(parts)[k]) != []
  {
    FilterAccepted(parts, Filled);
  }

  /** The filter unfolded at the first piece. */
  lemma NonBlankCons(x: string, rest: seq<string>)
    ensures NonBlank([x] + rest) == (if Trim(x) != [] then [x] else []) + NonBlank(rest)
  {
    FilterCons(x, rest, Filled);
  }

  lemma NonBlankAppend(a: seq<string>, b: seq<string>)
    ensures NonBlank(a + b) == NonBlank(a) + NonBlank(b)
  {
    FilterAppend(a, b, Filled);
  }

  /** The characters of `s` that are not white space, in order. */
  function Visible(s: string): string {
    if s == [] then [] else (if IsSpace(s[0]) then [] else [s[0]]) + Visible(s[1..])
  }

  lemma {:induction false} VisibleAppend(a: string, b: string)
    ensures Visible(a + b) == Visible(a) + Visible(b)
  {
    if a != [] {
      HeadTail(a, b);
      VisibleAppend(a[1..], b);
    } else {
      assert a + b == b;
    }
  }

  lemma {:induction false} VisibleOfBlank(s: string)
    requires AllSpace(s)
    ensures Visible(s) == []
  {
    if s != [] { VisibleOfBlank(s[1..]); }
  }

  /**
   * Dropping the blank pieces loses no visible character: the pieces that
   * remain spell the same non-space characters, in the same order.
   */
  lemma {:induction false} NonBlankKeepsVisible(parts: seq<string>)
    ensures Visible(Concat(NonBlank(parts))) == Visible(Concat(parts))
  {
    if parts != [] {
      var x, rest := parts[0], parts[1..];
      var kept := NonBlank(rest);
      assert parts == [x] + rest;
      NonBlankCons(x, rest);
      NonBlankKeepsVisible(rest);
      VisibleAppend(x, Concat(rest));
      if Trim(x) != [] {
        ConcatCons(x, kept);
        VisibleAppend(x, Concat(kept));
      } else {
        assert NonBlank(parts) == kept;
        BlankIff(x);
        VisibleOfBlank(x);
      }
    }
  }

  /** A string with a visible character has a non-empty visible part. */
  lemma {:induction false} VisibleHasChar(s: string, i: nat)
    requires i < |s| && !IsSpace(s[i])
    ensures Visible(s) != []
  {
    if i > 0 && IsSpace(s[0]) {
      VisibleHasChar(s[1..], i - 1);
    }
  }
}
