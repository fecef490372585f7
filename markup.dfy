/**
 * Tag spans. The sanitiser deletes every match of `/<[^>]*>/g`: a `<`, the
 * characters up to the next `>`, and that `>`. The same scan gives the text
 * content of the markup the pipeline emits, since every tag it writes is
 * such a span and it writes no other `<`.
 */
module Markup {
  import opened JsText

  /** No `<` of `s` has a `>` after it, so `/<[^>]*>/` finds nothing in `s`. */
  predicate NoTagSpan(s: string) {
    forall i, j :: 0 <= i < j < |s| && s[i] == '<' ==> s[j] != '>'
  }

  /** Some `>` occurs in `t`. */
  predicate HasClose(t: string) {
    t != [] && (t[0] == '>' || HasClose(t[1..]))
  }

  lemma {:induction false} HasCloseIff(t: string)
    ensures HasClose(t) <==> '>' in t
  {
    if t != [] {
      HasCloseIff(t[1..]);
      assert t == [t[0]] + t[1..];
    }
  }

  /** What follows the first `>` of `t`: a suffix of `t`, shorter than `t`. */
  function AfterClose(t: string): (r: string)
    requires HasClose(t)
    ensures |r| < |t| && r == t[|t| - |r|..]
  {
    if t[0] == '>' then t[1..] else AfterClose(t[1..])
  }

  /** The first `>` of `m + ">" + rest`, where `m` has none, is the one after `m`. */
  lemma {:induction false} AfterCloseSkip(m: string, rest: string)
    requires '>' !in m
    ensures HasClose(m + ">" + rest) && AfterClose(m + ">" + rest) == rest
  {
    var t := m + ">" + rest;
    if m == [] {
      assert t[0] == '>' && t[1..] == rest;
    } else {
      assert t[0] == m[0] && t[1..] == m[1..] + ">" + rest;
      AfterCloseSkip(m[1..], rest);
    }
  }

  /** A `>` found in `t` is found before anything appended to `t`. */
  lemma {:induction false} AfterCloseAppend(t: string, b: string)
    requires HasClose(t)
    ensures HasClose(t + b) && AfterClose(t + b) == AfterClose(t) + b
  {
    var s := t + b;
    assert s[0] == t[0];
    if t[0] != '>' {
      assert s[1..] == t[1..] + b;
      AfterCloseAppend(t[1..], b);
    } else {
      assert s[1..] == t[1..] + b;
    }
  }

  /** `s.replace(/<[^>]*>/g, '')`. */
  function StripTags(s: string): string
    decreases |s|
  {
    if s == [] then []
    else if s[0] == '<' && HasClose(s[1..]) then StripTags(AfterClose(s[1..]))
    else [s[0]] + StripTags(s[1..])
  }

  /** Stripping adds no character: whatever it keeps comes from `s`. */
  lemma {:induction false} StripTagsFrom(s: string)
    ensures forall k :: 0 <= k < |StripTags(s)| ==> StripTags(s)[k] in s
    decreases |s|
  {
    if s != [] {
      if s[0] == '<' && HasClose(s[1..]) {
        var t := AfterClose(s[1..]);
        StripTagsFrom(t);
        SuffixIn(s, t);
      } else {
        var r := StripTags(s[1..]);
        StripTagsFrom(s[1..]);
        SuffixIn(s, s[1..]);
        assert StripTags(s) == [s[0]] + r;
        forall k | 1 <= k < |StripTags(s)| ensures StripTags(s)[k] in s {
          assert StripTags(s)[k] == r[k - 1];
        }
      }
    }
  }

  /** Every character of a suffix is a character of the whole. */
  lemma SuffixIn(s: string, t: string)
    requires |t| <= |s| && t == s[|s| - |t|..]
    ensures forall c :: c in t ==> c in s
  {
    forall c | c in t ensures c in s {
      var x :| 0 <= x < |t| && t[x] == c;
      assert s[|s| - |t| + x] == c;
    }
  }

  /** What stripping leaves has no tag span left in it. */
  lemma {:induction false} StripTagsClean(s: string)
    ensures NoTagSpan(StripTags(s))
    decreases |s|
  {
    if s != [] {
      if s[0] == '<' && HasClose(s[1..]) {
        StripTagsClean(AfterClose(s[1..]));
      } else {
        var r := StripTags(s[1..]);
        StripTagsClean(s[1..]);
        StripTagsFrom(s[1..]);
        HasCloseIff(s[1..]);
        assert s[0] == '<' ==> '>' !in r;
        NoTagSpanConcat([s[0]], r);
      }
    }
  }

  /** A prefix without `<` is kept as it is. */
  lemma {:induction false} StripTagsPrefix(a: string, b: string)
    requires '<' !in a
    ensures StripTags(a + b) == a + StripTags(b)
  {
    if a == [] {
      assert a + b == b;
    } else {
      HeadTail(a, b);
      StripTagsPrefix(a[1..], b);
      Associative([a[0]], a[1..], StripTags(b));
      assert a == [a[0]] + a[1..];
    }
  }

  /** A span from a `<` to the next `>` is deleted whole. */
  lemma StripTagsSpan(m: string, b: string)
    requires '>' !in m
    ensures StripTags("<" + m + ">" + b) == StripTags(b)
  {
    var s := "<" + m + ">" + b;
    assert s[0] == '<' && s[1..] == m + ">" + b;
    AfterCloseSkip(m, b);
  }

  /** Text with no tag span is left alone (so stripping twice is stripping once). */
  lemma {:induction false} StripTagsIdentity(s: string)
    requires NoTagSpan(s)
    ensures StripTags(s) == s
  {
    if s != [] {
      if s[0] == '<' {
        assert forall j :: 0 <= j < |s[1..]| ==> s[1..][j] == s[j + 1];
        assert '>' !in s[1..];
        HasCloseIff(s[1..]);
      }
      NoTagSpanInfix(s, 1, |s|);
      StripTagsIdentity(s[1..]);
      assert s == [s[0]] + s[1..];
    }
  }

  lemma StripTagsIdempotent(s: string)
    ensures StripTags(StripTags(s)) == StripTags(s)
  {
    StripTagsClean(s);
    StripTagsIdentity(StripTags(s));
  }

  /** A concatenation has no tag span iff neither part has one and no `<` of the first faces a `>` of the second. */
  lemma NoTagSpanConcat(a: string, b: string)
    ensures NoTagSpan(a + b) <==> NoTagSpan(a) && NoTagSpan(b) && !('<' in a && '>' in b)
  {
    var s := a + b;
    if NoTagSpan(s) {
      forall i, j | 0 <= i < j < |a| && a[i] == '<' ensures a[j] != '>' {
        assert s[i] == a[i] && s[j] == a[j];
      }
      forall i, j | 0 <= i < j < |b| && b[i] == '<' ensures b[j] != '>' {
        assert s[|a| + i] == b[i] && s[|a| + j] == b[j];
      }
      if '<' in a {
        var i :| 0 <= i < |a| && a[i] == '<';
        forall j | 0 <= j < |b| ensures b[j] != '>' {
          assert s[i] == '<' && s[|a| + j] == b[j];
        }
      }
    }
    if NoTagSpan(a) && NoTagSpan(b) && !('<' in a && '>' in b) {
      forall i, j | 0 <= i < j < |s| && s[i] == '<' ensures s[j] != '>' {
        if j < |a| {
          assert a[i] == s[i] && a[j] == s[j];
        } else if i >= |a| {
          assert b[i - |a|] == s[i] && b[j - |a|] == s[j];
        } else {
          assert a[i] == s[i] && b[j - |a|] == s[j];
        }
      }
    }
  }

  /** The two halves of `NoTagSpanConcat`, each on its own. */
  lemma NoTagSpanJoin(a: string, b: string)
    requires NoTagSpan(a) && NoTagSpan(b) && !('<' in a && '>' in b)
    ensures NoTagSpan(a + b)
  {
    NoTagSpanConcat(a, b);
  }

  lemma NoTagSpanParts(a: string, b: string)
    requires NoTagSpan(a + b)
    ensures NoTagSpan(a) && NoTagSpan(b) && !('<' in a && '>' in b)
  {
    NoTagSpanConcat(a, b);
  }

  lemma NoTagSpanInfix(s: string, k: nat, m: nat)
    requires k <= m <= |s| && NoTagSpan(s)
    ensures NoTagSpan(s[k..m])
  {
    var t := s[k..m];
    forall i, j | 0 <= i < j < |t| && t[i] == '<' ensures t[j] != '>' {
      assert t[i] == s[k + i] && t[j] == s[k + j];
    }
  }

  /**
   * `s` holds whole tags only: its last `<` has a `>` after it. Read from the
   * end: a string ending in `>` closes all of its tags, one ending in `<`
   * leaves that one open, and any other last character changes nothing.
   */
  predicate TagsClosed(s: string)
    decreases |s|
  {
    s == [] || s[|s| - 1] == '>' || (s[|s| - 1] != '<' && TagsClosed(s[..|s| - 1]))
  }

  /** In a string that holds whole tags only, every `<` is followed by a `>`. */
  lemma {:induction false} TagsClosedAt(s: string, i: nat)
    requires TagsClosed(s) && i < |s| && s[i] == '<'
    ensures '>' in s[i + 1..]
    decreases |s|
  {
    var n := |s| - 1;
    if s[n] == '>' {
      assert s[i + 1..][n - i - 1] == '>';
    } else {
      var p := s[..n];
      TagsClosedAt(p, i);
      var x :| 0 <= x < |p[i + 1..]| && p[i + 1..][x] == '>';
      assert s[i + 1..][x] == '>';
    }
  }

  lemma {:induction false} TagsClosedAppend(a: string, b: string)
    requires TagsClosed(a) && TagsClosed(b)
    ensures TagsClosed(a + b)
    decreases |b|
  {
    if b == [] {
      assert a + b == a;
    } else if b[|b| - 1] != '>' {
      var s := a + b;
      assert s[|s| - 1] == b[|b| - 1];
      assert s[..|s| - 1] == a + b[..|b| - 1];
      TagsClosedAppend(a, b[..|b| - 1]);
    }
  }

  /** A suffix of a string that holds whole tags only holds whole tags only. */
  lemma {:induction false} TagsClosedSuffix(a: string, k: nat)
    requires TagsClosed(a) && k <= |a|
    ensures TagsClosed(a[k..])
    decreases |a|
  {
    if k < |a| {
      var t := a[k..];
      var n := |a| - 1;
      assert t[|t| - 1] == a[n];
      if a[n] != '>' {
        assert t[..|t| - 1] == a[..n][k..];
        TagsClosedSuffix(a[..n], k);
      }
    }
  }

  /** A tag that opens `a` closes inside `a`, and is the same tag at the front of `a + b`. */
  lemma TagInFirst(a: string, b: string)
    requires a != [] && a[0] == '<' && TagsClosed(a)
    ensures HasClose(a[1..])
    ensures StripTags(a) == StripTags(AfterClose(a[1..]))
    ensures StripTags(a + b) == StripTags(AfterClose(a[1..]) + b)
  {
    TagsClosedAt(a, 0);
    HasCloseIff(a[1..]);
    assert (a + b)[0] == '<' && (a + b)[1..] == a[1..] + b;
    AfterCloseAppend(a[1..], b);
  }

  /**
   * Stripping works piecewise once the first piece closes its own tags: no
   * tag span of the whole straddles the two pieces.
   */
  lemma {:induction false} StripTagsAppend(a: string, b: string)
    requires TagsClosed(a)
    ensures StripTags(a + b) == StripTags(a) + StripTags(b)
    decreases |a|, 1
  {
    if a == [] {
      assert a + b == b;
    } else if a[0] == '<' {
      StripTagsAppendTag(a, b);
    } else {
      StripTagsAppendChar(a, b);
    }
  }

  /** The step of `StripTagsAppend` past a tag that opens `a`. */
  lemma {:induction false} StripTagsAppendTag(a: string, b: string)
    requires a != [] && a[0] == '<' && TagsClosed(a)
    ensures StripTags(a + b) == StripTags(a) + StripTags(b)
    decreases |a|, 0
  {
    TagInFirst(a, b);
    var t := AfterClose(a[1..]);
    assert t == a[|a| - |t|..];
    TagsClosedSuffix(a, |a| - |t|);
    StripTagsAppend(t, b);
  }

  /** The step of `StripTagsAppend` past a character that is not `<`. */
  lemma {:induction false} StripTagsAppendChar(a: string, b: string)
    requires a != [] && a[0] != '<' && TagsClosed(a)
    ensures StripTags(a + b) == StripTags(a) + StripTags(b)
    decreases |a|, 0
  {
    TagsClosedSuffix(a, 1);
    StripTagsAppend(a[1..], b);
    HeadTail(a, b);
    Associative([a[0]], StripTags(a[1..]), StripTags(b));
  }
}
