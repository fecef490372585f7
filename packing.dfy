/**
 * The two ways the optimiser cuts a run of pieces into consecutive slides:
 * fixed-size runs (list items, eight at a time) and greedy packing under a
 * weight limit (paragraphs and sentences, 800 characters at a time).
 */
module Packing {
  import opened JsText

  function Flatten<T>(gs: seq<seq<T>>): seq<T> {
    if gs == [] then [] else gs[0] + Flatten(gs[1..])
  }

  lemma {:induction false} FlattenAppend<T>(a: seq<seq<T>>, b: seq<seq<T>>)
    ensures Flatten(a + b) == Flatten(a) + Flatten(b)
  {
    if a == [] {
      assert a + b == b;
    } else {
      HeadTail(a, b);
      FlattenAppend(a[1..], b);
    }
  }

  /** The total weight of a run of pieces. */
  function Sum<T>(xs: seq<T>, w: T -> nat): nat {
    if xs == [] then 0 else w(xs[0]) + Sum(xs[1..], w)
  }

  lemma {:induction false} SumAppend<T>(a: seq<T>, b: seq<T>, w: T -> nat)
    ensures Sum(a + b, w) == Sum(a, w) + Sum(b, w)
  {
    if a == [] {
      assert a + b == b;
    } else {
      HeadTail(a, b);
      SumAppend(a[1..], b, w);
    }
  }

  /** A run weighs at least as much as any of its pieces. */
  lemma {:induction false} SumMember<T>(xs: seq<T>, i: nat, w: T -> nat)
    requires i < |xs|
    ensures Sum(xs, w) >= w(xs[i])
  {
    if i > 0 {
      SumMember(xs[1..], i - 1, w);
    }
  }

  /** Runs of `n` pieces in order; the last run is shorter when `n` does not divide the length. */
  function Chunks<T>(xs: seq<T>, n: nat): seq<seq<T>>
    requires n >= 1
    decreases |xs|
  {
    if xs == [] then []
    else if |xs| <= n then [xs]
    else [xs[..n]] + Chunks(xs[n..], n)
  }

  /** A full run at the front is a chunk of its own. */
  lemma ChunksFull<T>(run: seq<T>, rest: seq<T>, n: nat)
    requires n >= 1 && |run| == n
    ensures Chunks(run + rest, n) == [run] + Chunks(rest, n)
  {
    var s := run + rest;
    if rest != [] {
      assert s[..n] == run;
      assert s[n..] == rest;
    } else {
      assert s == run;
    }
  }

  /** The runs put back together give the pieces; each holds one to `n` pieces, and all but the last exactly `n`. */
  lemma {:induction false} ChunksFacts<T>(xs: seq<T>, n: nat)
    requires n >= 1
    ensures Flatten(Chunks(xs, n)) == xs
    ensures forall k :: 0 <= k < |Chunks(xs, n)| ==> 1 <= |Chunks(xs, n)[k]| <= n
    ensures forall k :: 0 <= k < |Chunks(xs, n)| - 1 ==> |Chunks(xs, n)[k]| == n
    decreases |xs|
  {
    var c := Chunks(xs, n);
    if xs == [] {
    } else if |xs| <= n {
      assert Flatten(c) == xs + Flatten([]);
    } else {
      var rest := c[1..];
      ChunksFacts(xs[n..], n);
      assert rest == Chunks(xs[n..], n);
      assert xs == xs[..n] + xs[n..];
      forall k | 0 <= k < |c| ensures 1 <= |c[k]| <= n {
        if k > 0 { assert c[k] == rest[k - 1]; }
      }
      forall k | 0 <= k < |c| - 1 ensures |c[k]| == n {
        if k > 0 { assert c[k] == rest[k - 1]; }
      }
    }
  }

  /** Eight pieces a run, as the list splitting uses: one run per eight pieces, rounded up. */
  lemma {:induction false} ChunksOfEight<T>(xs: seq<T>)
    ensures |Chunks(xs, 8)| == (|xs| + 7) / 8
    decreases |xs|
  {
    if |xs| > 8 {
      ChunksOfEight(xs[8..]);
    }
  }

  /**
   * The greedy packing loop, one piece at a time: the open group `current`
   * of weight `weight` is closed before a piece that would take it over
   * `limit`, unless it is empty; every piece then joins the open group.
   */
  function PackFrom<T>(done: seq<seq<T>>, current: seq<T>, weight: nat, xs: seq<T>, w: T -> nat, limit: nat): seq<seq<T>>
    decreases |xs|
  {
    if xs == [] then done + (if current == [] then [] else [current])
    else if weight + w(xs[0]) > limit && current != [] then
      PackFrom(done + [current], [xs[0]], w(xs[0]), xs[1..], w, limit)
    else
      PackFrom(done, current + [xs[0]], weight + w(xs[0]), xs[1..], w, limit)
  }

  /** One step of the packing loop, in each of its two cases. */
  lemma PackFromStep<T>(done: seq<seq<T>>, current: seq<T>, weight: nat, xs: seq<T>, w: T -> nat, limit: nat)
    requires xs != []
    ensures weight + w(xs[0]) > limit && current != [] ==>
      PackFrom(done, current, weight, xs, w, limit) == PackFrom(done + [current], [xs[0]], w(xs[0]), xs[1..], w, limit)
    ensures !(weight + w(xs[0]) > limit && current != []) ==>
      PackFrom(done, current, weight, xs, w, limit) == PackFrom(done, current + [xs[0]], weight + w(xs[0]), xs[1..], w, limit)
  {
  }

  /**
   * One turn of the packing loop over `xs[i]`, as the loop writes it: close
   * the open group when the piece would take it over the limit (and it is not
   * empty), then add the piece. The primed state is the state after the turn.
   */
  lemma PackLoopStep<T>(done: seq<seq<T>>, current: seq<T>, weight: nat, xs: seq<T>, i: nat, w: T -> nat, limit: nat,
                        length: nat, close: bool, done': seq<seq<T>>, current': seq<T>, weight': nat)
    requires i < |xs| && length == w(xs[i]) && close == (weight + length > limit && current != [])
    requires close ==> done' == done + [current] && current' == [xs[i]] && weight' == length
    requires !close ==> done' == done && current' == current + [xs[i]] && weight' == weight + length
    ensures PackFrom(done', current', weight', xs[i + 1..], w, limit) == PackFrom(done, current, weight, xs[i..], w, limit)
  {
    assert xs[i..][0] == xs[i] && xs[i..][1..] == xs[i + 1..];
    PackFromStep(done, current, weight, xs[i..], w, limit);
  }

  function Pack<T>(xs: seq<T>, w: T -> nat, limit: nat): seq<seq<T>> {
    PackFrom([], [], 0, xs, w, limit)
  }

  /** `g` applied to each element, in order. */
  function Each<A, B>(xs: seq<A>, g: A -> B): (r: seq<B>)
    ensures |r| == |xs|
    ensures forall k :: 0 <= k < |r| ==> r[k] == g(xs[k])
  {
    seq(|xs|, k requires 0 <= k < |xs| => g(xs[k]))
  }

  lemma EachSnoc<A, B>(xs: seq<A>, x: A, g: A -> B)
    ensures Each(xs + [x], g) == Each(xs, g) + [g(x)]
  {
  }

  lemma EachAppend<A, B>(a: seq<A>, b: seq<A>, g: A -> B)
    ensures Each(a + b, g) == Each(a, g) + Each(b, g)
  {
  }

  lemma EachSingle<A, B>(x: A, xs: seq<A>, g: A -> B)
    requires xs == [x]
    ensures Each(xs, g) == [g(x)]
  {
  }

  /** A `forEach` that pushes `g(x)` for each `x` of `xs`, in order, onto `out`. */
  method PushEach<A, B>(out: seq<B>, xs: seq<A>, g: A -> B) returns (r: seq<B>)
    ensures r == out + Each(xs, g)
  {
    r := out;
    var j := 0;
    while j < |xs|
      invariant 0 <= j <= |xs|
      invariant r == out + Each(xs[..j], g)
    {
      EachSnoc(xs[..j], xs[j], g);
      assert xs[..j + 1] == xs[..j] + [xs[j]];
      r := r + [g(xs[j])];
      j := j + 1;
    }
    assert xs[..j] == xs;
  }

  /**
   * The greedy loop of `redecouperParParagraphes` and
   * `redecouperParPhrasesLogiques`: each piece weighs `w`; when the open
   * group is not empty and the piece would take its weight over `limit`, the
   * group is closed and `emit` makes a slide of it; then the piece joins the
   * open group. The last open group, if any, is emitted at the end.
   */
  method PackInto<T, U>(xs: seq<T>, w: T -> nat, limit: nat, emit: seq<T> -> U) returns (out: seq<U>)
    ensures out == Each(Pack(xs, w, limit), emit)
  {
    out := [];
    var current: seq<T> := [];
    var weight: nat := 0;
    ghost var done: seq<seq<T>> := [];
    var i := 0;
    while i < |xs|
      invariant 0 <= i <= |xs|
      invariant out == Each(done, emit)
      invariant PackFrom(done, current, weight, xs[i..], w, limit) == Pack(xs, w, limit)
    {
      var length := w(xs[i]);
      ghost var (done0, current0, weight0) := (done, current, weight);
      var close := weight + length > limit && |current| > 0;
      if close {
        EachSnoc(done, current, emit);
        out := out + [emit(current)];
        done := done + [current];
        current := [];
        weight := 0;
      }
      current := current + [xs[i]];
      weight := weight + length;
      PackLoopStep(done0, current0, weight0, xs, i, w, limit, length, close, done, current, weight);
      i := i + 1;
    }
    assert xs[i..] == [];
    if |current| > 0 {
      EachSnoc(done, current, emit);
      out := out + [emit(current)];
      done := done + [current];
    } else {
      assert done + [] == done;
    }
  }

  predicate NonEmptyGroups<T>(gs: seq<seq<T>>) {
    forall k :: 0 <= k < |gs| ==> gs[k] != []
  }

  /** A group of two or more pieces stays within the limit (a single piece may exceed it). */
  predicate WithinLimit<T>(gs: seq<seq<T>>, w: T -> nat, limit: nat) {
    forall k :: 0 <= k < |gs| && |gs[k]| >= 2 ==> Sum(gs[k], w) <= limit
  }

  /** No group could have taken the first piece of the next one. */
  predicate Maximal<T>(gs: seq<seq<T>>, w: T -> nat, limit: nat) {
    forall k :: 0 <= k < |gs| - 1 && gs[k + 1] != [] ==> Sum(gs[k], w) + w(gs[k + 1][0]) > limit
  }

  /** What holds of the loop state between two pieces. */
  predicate PackState<T>(done: seq<seq<T>>, current: seq<T>, weight: nat, w: T -> nat, limit: nat) {
    && weight == Sum(current, w)
    && NonEmptyGroups(done) && WithinLimit(done, w, limit) && Maximal(done, w, limit)
    && (|current| >= 2 ==> weight <= limit)
    && (done != [] ==> current != [] && Sum(done[|done| - 1], w) + w(current[0]) > limit)
  }

  lemma ClosedGroups<T>(done: seq<seq<T>>, current: seq<T>, weight: nat, w: T -> nat, limit: nat)
    requires PackState(done, current, weight, w, limit) && current != []
    ensures var gs := done + [current];
      NonEmptyGroups(gs) && WithinLimit(gs, w, limit) && Maximal(gs, w, limit)
  {
    var gs := done + [current];
    assert forall k :: 0 <= k < |done| ==> gs[k] == done[k];
    assert gs[|done|] == current;
  }

  lemma {:induction false} PackFromFacts<T>(done: seq<seq<T>>, current: seq<T>, weight: nat, xs: seq<T>, w: T -> nat, limit: nat)
    requires PackState(done, current, weight, w, limit)
    ensures var gs := PackFrom(done, current, weight, xs, w, limit);
      NonEmptyGroups(gs) && WithinLimit(gs, w, limit) && Maximal(gs, w, limit)
    decreases |xs|
  {
    if xs == [] {
      if current != [] { ClosedGroups(done, current, weight, w, limit); }
      else { assert done + [] == done; }
    } else {
      var x := xs[0];
      assert Sum([x], w) == w(x) by { assert [x][1..] == []; }
      if weight + w(x) > limit && current != [] {
        ClosedGroups(done, current, weight, w, limit);
        var done' := done + [current];
        assert done'[|done'| - 1] == current;
        PackFromFacts(done', [x], w(x), xs[1..], w, limit);
      } else {
        SumAppend(current, [x], w);
        if current != [] { assert (current + [x])[0] == current[0]; }
        PackFromFacts(done, current + [x], weight + w(x), xs[1..], w, limit);
      }
    }
  }

  lemma {:induction false} PackFromFlatten<T>(done: seq<seq<T>>, current: seq<T>, weight: nat, xs: seq<T>, w: T -> nat, limit: nat)
    ensures Flatten(PackFrom(done, current, weight, xs, w, limit)) == Flatten(done) + current + xs
    decreases |xs|
  {
    if xs == [] {
      if current == [] {
        assert done + [] == done;
      } else {
        FlattenAppend(done, [current]);
        assert Flatten([current]) == current + Flatten([]);
      }
    } else {
      var x := xs[0];
      assert xs == [x] + xs[1..];
      if weight + w(x) > limit && current != [] {
        PackFromFlatten(done + [current], [x], w(x), xs[1..], w, limit);
        FlattenAppend(done, [current]);
        assert Flatten([current]) == current + Flatten([]);
      } else {
        PackFromFlatten(done, current + [x], weight + w(x), xs[1..], w, limit);
      }
    }
  }

  /**
   * The greedy packing keeps every piece in order, leaves no group empty,
   * keeps each group of two or more pieces within the limit, and closes a
   * group only when the next piece would take it over the limit.
   */
  lemma PackFacts<T>(xs: seq<T>, w: T -> nat, limit: nat)
    ensures Flatten(Pack(xs, w, limit)) == xs
    ensures Pack(xs, w, limit) == [] <==> xs == []
    ensures NonEmptyGroups(Pack(xs, w, limit))
    ensures WithinLimit(Pack(xs, w, limit), w, limit)
    ensures Maximal(Pack(xs, w, limit), w, limit)
  {
    PackFromFlatten([], [], 0, xs, w, limit);
    PackFromFacts([], [], 0, xs, w, limit);
  }

  /** A piece heavier than the limit gets a group of its own. */
  lemma HeavyPieceAlone<T>(xs: seq<T>, w: T -> nat, limit: nat, k: nat, i: nat)
    requires k < |Pack(xs, w, limit)| && i < |Pack(xs, w, limit)[k]|
    requires w(Pack(xs, w, limit)[k][i]) > limit
    ensures Pack(xs, w, limit)[k] == [Pack(xs, w, limit)[k][i]]
  {
    var g := Pack(xs, w, limit)[k];
    PackFacts(xs, w, limit);
    SumMember(g, i, w);
  }

  lemma {:induction false} PackFromFits<T>(done: seq<seq<T>>, current: seq<T>, xs: seq<T>, w: T -> nat, limit: nat)
    requires Sum(current, w) + Sum(xs, w) <= limit && current + xs != []
    ensures PackFrom(done, current, Sum(current, w), xs, w, limit) == done + [current + xs]
    decreases |xs|
  {
    if xs == [] {
      assert current + xs == current;
    } else {
      var x := xs[0];
      SumMember(xs, 0, w);
      SumAppend(current, [x], w);
      assert Sum([x], w) == w(x) by { assert [x][1..] == []; }
      assert Sum(xs, w) == w(x) + Sum(xs[1..], w);
      PackFromFits(done, current + [x], xs[1..], w, limit);
      assert current + [x] + xs[1..] == current + xs;
    }
  }

  /** Pieces that fit together under the limit stay in one group. */
  lemma PackAllFit<T>(xs: seq<T>, w: T -> nat, limit: nat)
    requires xs != [] && Sum(xs, w) <= limit
    ensures Pack(xs, w, limit) == [xs]
  {
    PackFromFits([], [], xs, w, limit);
    assert [] + xs == xs;
  }
}
