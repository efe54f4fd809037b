/** Sequence search shared by the two directory diffs, and the selection made by the two
    directory filters. */
module Seqs {
  import opened Wrappers

  /** The index of the first element satisfying `p`, as a `for ... break` loop finds it. */
  function FindFirst<T>(xs: seq<T>, p: T -> bool): (r: Option<nat>)
    ensures r.Some? ==> r.value < |xs| && p(xs[r.value])
    ensures r.Some? ==> forall j :: 0 <= j < r.value ==> !p(xs[j])
    ensures r.None? ==> forall j :: 0 <= j < |xs| ==> !p(xs[j])
    decreases |xs|
  {
    if |xs| == 0 then None
    else if p(xs[0]) then Some(0)
    else match FindFirst(xs[1..], p)
      case None => None
      case Some(k) => Some(k + 1)
  }

  /** `idx` lists, in increasing order and each once, exactly the positions of `xs` whose
      element satisfies `keep`: the positions a filtering `for ... continue` loop keeps. */
  predicate Selects<T>(xs: seq<T>, keep: T -> bool, idx: seq<nat>)
  {
    && (forall k :: 0 <= k < |idx| ==> idx[k] < |xs| && keep(xs[idx[k]]))
    && (forall k, m :: 0 <= k < m < |idx| ==> idx[k] < idx[m])
    && (forall i :: 0 <= i < |xs| && keep(xs[i]) ==> i in idx)
  }

  /** One more element extends the selection by its position exactly when it is kept. */
  lemma SelectsAppend<T>(xs: seq<T>, x: T, keep: T -> bool, idx: seq<nat>)
    requires Selects(xs, keep, idx)
    ensures Selects(xs + [x], keep, if keep(x) then idx + [|xs|] else idx)
  {
    var ys := xs + [x];
    var next := if keep(x) then idx + [|xs|] else idx;
    forall k | 0 <= k < |next|
      ensures next[k] < |ys| && keep(ys[next[k]])
    {
      if k < |idx| {
        assert next[k] == idx[k] && ys[idx[k]] == xs[idx[k]];
      }
    }
    forall i | 0 <= i < |ys| && keep(ys[i])
      ensures i in next
    {
      if i < |xs| {
        assert ys[i] == xs[i];
        var j :| 0 <= j < |idx| && idx[j] == i;
        assert next[j] == i;
      } else {
        assert next[|next| - 1] == i;
      }
    }
  }

  /** Dropping a kept last element drops its position, the last of the selection. */
  lemma SelectsDropKept<T>(xs: seq<T>, keep: T -> bool, idx: seq<nat>)
    requires |xs| > 0 && keep(xs[|xs| - 1]) && Selects(xs, keep, idx)
    ensures |idx| > 0 && idx[|idx| - 1] == |xs| - 1
    ensures Selects(xs[..|xs| - 1], keep, idx[..|idx| - 1])
  {
    var n := |xs| - 1;
    assert n in idx;
    var k :| 0 <= k < |idx| && idx[k] == n;
    assert idx[k] <= idx[|idx| - 1] < |xs|;
    var init, front := xs[..n], idx[..|idx| - 1];
    forall j | 0 <= j < |front|
      ensures front[j] < n && keep(init[front[j]])
    {
      assert front[j] == idx[j] < idx[|idx| - 1];
      assert init[front[j]] == xs[idx[j]];
    }
    forall i | 0 <= i < |init| && keep(init[i])
      ensures i in front
    {
      assert xs[i] == init[i];
      var j :| 0 <= j < |idx| && idx[j] == i;
      assert front[j] == i;
    }
  }

  /** Dropping a last element that is not kept leaves the selection as it is. */
  lemma SelectsDropSkipped<T>(xs: seq<T>, keep: T -> bool, idx: seq<nat>)
    requires |xs| > 0 && !keep(xs[|xs| - 1]) && Selects(xs, keep, idx)
    ensures Selects(xs[..|xs| - 1], keep, idx)
  {
    var n := |xs| - 1;
    var init := xs[..n];
    forall k | 0 <= k < |idx|
      ensures idx[k] < n && keep(init[idx[k]])
    {
      assert idx[k] != n;
      assert init[idx[k]] == xs[idx[k]];
    }
    forall i | 0 <= i < |init| && keep(init[i])
      ensures i in idx
    {
      assert xs[i] == init[i];
    }
  }

  /** The selection is determined by the sequence and the filter. */
  lemma {:induction false} SelectsUnique<T>(xs: seq<T>, keep: T -> bool, a: seq<nat>, b: seq<nat>)
    requires Selects(xs, keep, a) && Selects(xs, keep, b)
    ensures a == b
    decreases |xs|
  {
    if |xs| == 0 {
      NothingSelected(xs, keep, a);
      NothingSelected(xs, keep, b);
    } else if keep(xs[|xs| - 1]) {
      SelectsDropKept(xs, keep, a);
      SelectsDropKept(xs, keep, b);
      SelectsUnique(xs[..|xs| - 1], keep, a[..|a| - 1], b[..|b| - 1]);
      SameFrontSameLast(a, b);
    } else {
      SelectsDropSkipped(xs, keep, a);
      SelectsDropSkipped(xs, keep, b);
      SelectsUnique(xs[..|xs| - 1], keep, a, b);
    }
  }

  lemma NothingSelected<T>(xs: seq<T>, keep: T -> bool, idx: seq<nat>)
    requires |xs| == 0 && Selects(xs, keep, idx)
    ensures idx == []
  {
    if |idx| > 0 {
      SelectedInRange(xs, keep, idx, 0);
    }
  }

  lemma SelectedInRange<T>(xs: seq<T>, keep: T -> bool, idx: seq<nat>, k: nat)
    requires Selects(xs, keep, idx) && k < |idx|
    ensures idx[k] < |xs|
  {
  }

  lemma SameFrontSameLast(a: seq<nat>, b: seq<nat>)
    requires |a| > 0 && |b| > 0 && a[..|a| - 1] == b[..|b| - 1] && a[|a| - 1] == b[|b| - 1]
    ensures a == b
  {
    assert a == a[..|a| - 1] + [a[|a| - 1]];
    assert b == b[..|b| - 1] + [b[|b| - 1]];
  }

  /** `ys` is `f` of the elements of `xs` that `keep` selects, through the positions `idx`:
      each kept element once, in order. */
  ghost predicate FilterMapVia<T, U>(xs: seq<T>, keep: T -> bool, f: T -> U, ys: seq<U>, idx: seq<nat>)
  {
    && Selects(xs, keep, idx)
    && |ys| == |idx|
    && forall k :: 0 <= k < |idx| ==> idx[k] < |xs| && ys[k] == f(xs[idx[k]])
  }

  /** The filter's contribution of one element: its image when it is kept. */
  function KeptImage<T, U>(x: T, keep: T -> bool, f: T -> U): seq<U>
  {
    if keep(x) then [f(x)] else []
  }

  /** A filtering loop: `f` of each element `keep` selects, appended in order. */
  function FilterMap<T, U>(xs: seq<T>, keep: T -> bool, f: T -> U): seq<U>
    decreases |xs|
  {
    if |xs| == 0 then []
    else FilterMap(xs[..|xs| - 1], keep, f) + KeptImage(xs[|xs| - 1], keep, f)
  }

  /** The filtering loop keeps each selected element once, in order; the positions it
      keeps are returned. */
  lemma {:induction false} FilterMapSelects<T, U>(xs: seq<T>, keep: T -> bool, f: T -> U)
    returns (idx: seq<nat>)
    ensures FilterMapVia(xs, keep, f, FilterMap(xs, keep, f), idx)
    decreases |xs|
  {
    if |xs| == 0 {
      idx := [];
    } else {
      var prev := FilterMapSelects(xs[..|xs| - 1], keep, f);
      idx := FilterMapStep(xs, keep, f, prev);
    }
  }

  /** The last iteration of the filtering loop. */
  lemma FilterMapStep<T, U>(xs: seq<T>, keep: T -> bool, f: T -> U, prev: seq<nat>)
    returns (idx: seq<nat>)
    requires |xs| > 0
    requires FilterMapVia(xs[..|xs| - 1], keep, f, FilterMap(xs[..|xs| - 1], keep, f), prev)
    ensures FilterMapVia(xs, keep, f, FilterMap(xs, keep, f), idx)
  {
    var init, x := xs[..|xs| - 1], xs[|xs| - 1];
    assert init + [x] == xs;
    FilterMapAppend(init, x, keep, f, FilterMap(init, keep, f), prev);
    idx := if keep(x) then prev + [|init|] else prev;
  }

  /** One more element extends the result by its image and the positions by its own,
      exactly when it is kept. */
  lemma FilterMapAppend<T, U>(xs: seq<T>, x: T, keep: T -> bool, f: T -> U, ys: seq<U>, idx: seq<nat>)
    requires FilterMapVia(xs, keep, f, ys, idx)
    ensures FilterMapVia(xs + [x], keep, f, ys + KeptImage(x, keep, f),
                         if keep(x) then idx + [|xs|] else idx)
  {
    var all, next := xs + [x], if keep(x) then idx + [|xs|] else idx;
    var zs := ys + KeptImage(x, keep, f);
    SelectsAppend(xs, x, keep, idx);
    forall k | 0 <= k < |next|
      ensures next[k] < |all| && zs[k] == f(all[next[k]])
    {
      if k < |idx| {
        assert next[k] == idx[k] && zs[k] == ys[k] && all[idx[k]] == xs[idx[k]];
      }
    }
  }

  /** The filtered image is determined by the sequence, the filter and the map. */
  lemma FilterMapUnique<T, U>(xs: seq<T>, keep: T -> bool, f: T -> U, a: seq<U>, ia: seq<nat>,
                              b: seq<U>, ib: seq<nat>)
    requires FilterMapVia(xs, keep, f, a, ia) && FilterMapVia(xs, keep, f, b, ib)
    ensures a == b
  {
    SelectsUnique(xs, keep, ia, ib);
  }

  /** `f` of each element, in order. */
  function MapSeq<T, U>(xs: seq<T>, f: T -> U): seq<U>
  {
    seq(|xs|, i requires 0 <= i < |xs| => f(xs[i]))
  }

  /** Sequences holding the same elements, however ordered, have images holding the same
      elements. */
  lemma {:induction false} MapPreservesMultiset<T, U>(a: seq<T>, b: seq<T>, f: T -> U)
    requires multiset(a) == multiset(b)
    ensures multiset(MapSeq(a, f)) == multiset(MapSeq(b, f))
    decreases |a|
  {
    if |a| == 0 {
      assert |multiset(b)| == 0;
      assert b == [];
    } else {
      var x, init := a[|a| - 1], a[..|a| - 1];
      assert a == init + [x];
      assert x in multiset(b);
      var k :| 0 <= k < |b| && b[k] == x;
      var front, back := b[..k], b[k + 1..];
      RemoveMatched(a, b, k);
      MapPreservesMultiset(init, front + back, f);
      MapAround(front, x, back, f);
      MapAround(init, x, [], f);
      assert init + [x] + [] == a && init + [] == init && front + [x] + back == b;
    }
  }

  /** Taking the last element of `a` out of `a`, and a copy of it out of `b`, leaves
      sequences holding the same elements. */
  lemma RemoveMatched<T>(a: seq<T>, b: seq<T>, k: nat)
    requires multiset(a) == multiset(b) && |a| > 0 && k < |b| && b[k] == a[|a| - 1]
    ensures multiset(b[..k] + b[k + 1..]) == multiset(a[..|a| - 1])
  {
    var x, init, rest := a[|a| - 1], a[..|a| - 1], b[..k] + b[k + 1..];
    assert a == init + [x];
    assert multiset(rest) + multiset{x} == multiset(b) by {
      assert b == b[..k] + [x] + b[k + 1..];
    }
    assert multiset(init) + multiset{x} == multiset(b);
    assert multiset(rest) == multiset(b) - multiset{x};
    assert multiset(init) == multiset(b) - multiset{x};
  }

  /** The image of `front + [x] + back` holds the images of `front` and `back` and `f(x)`. */
  lemma MapAround<T, U>(front: seq<T>, x: T, back: seq<T>, f: T -> U)
    ensures multiset(MapSeq(front + [x] + back, f))
            == multiset(MapSeq(front + back, f)) + multiset{f(x)}
  {
    assert MapSeq(front + [x] + back, f) == MapSeq(front, f) + [f(x)] + MapSeq(back, f);
    assert MapSeq(front + back, f) == MapSeq(front, f) + MapSeq(back, f);
  }
}
