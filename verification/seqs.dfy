/** Sequence combinators the model's contracts are stated with. */
module Seqs {

  /** The elements of `xs` that satisfy `p`, in order. */
  function Filter<T>(p: T -> bool, xs: seq<T>): (r: seq<T>)
    ensures |r| <= |xs|
    ensures forall k :: 0 <= k < |r| ==> p(r[k])
  {
    if xs == [] then [] else (if p(xs[0]) then [xs[0]] else []) + Filter(p, xs[1..])
  }

  /** `Filter` keeps exactly the elements that satisfy `p`. */
  lemma {:induction false} FilterMembers<T>(p: T -> bool, xs: seq<T>)
    ensures forall x :: x in Filter(p, xs) <==> x in xs && p(x)
    decreases |xs|
  {
    if xs != [] {
      FilterMembers(p, xs[1..]);
      assert xs == [xs[0]] + xs[1..];
    }
  }

  lemma FilterCons<T>(p: T -> bool, xs: seq<T>)
    requires xs != []
    ensures Filter(p, xs) == (if p(xs[0]) then [xs[0]] else []) + Filter(p, xs[1..])
  {
  }

  lemma {:induction false} FilterAppend<T>(p: T -> bool, xs: seq<T>, ys: seq<T>)
    ensures Filter(p, xs + ys) == Filter(p, xs) + Filter(p, ys)
    decreases |xs|
  {
    if xs == [] {
      assert xs + ys == ys;
    } else {
      assert (xs + ys)[0] == xs[0];
      assert (xs + ys)[1..] == xs[1..] + ys;
      FilterAppend(p, xs[1..], ys);
    }
  }

  /** `f` applied to every element of `xs`. */
  function Map<T, U>(f: T -> U, xs: seq<T>): (r: seq<U>)
    ensures |r| == |xs|
    ensures forall k :: 0 <= k < |xs| ==> r[k] == f(xs[k])
  {
    if xs == [] then [] else [f(xs[0])] + Map(f, xs[1..])
  }

  lemma MapAppend<T, U>(f: T -> U, xs: seq<T>, ys: seq<T>)
    ensures Map(f, xs + ys) == Map(f, xs) + Map(f, ys)
  {
    assert forall k :: 0 <= k < |xs| + |ys| ==> Map(f, xs + ys)[k] == (Map(f, xs) + Map(f, ys))[k];
  }

  /** The concatenation of `f` applied to every element of `xs`. */
  function FlatMap<T, U>(f: T -> seq<U>, xs: seq<T>): seq<U>
  {
    if xs == [] then [] else f(xs[0]) + FlatMap(f, xs[1..])
  }

  lemma {:induction false} FlatMapAppend<T, U>(f: T -> seq<U>, xs: seq<T>, ys: seq<T>)
    ensures FlatMap(f, xs + ys) == FlatMap(f, xs) + FlatMap(f, ys)
    decreases |xs|
  {
    if xs == [] {
      assert xs + ys == ys;
    } else {
      assert (xs + ys)[0] == xs[0];
      assert (xs + ys)[1..] == xs[1..] + ys;
      FlatMapAppend(f, xs[1..], ys);
    }
  }

  /** An element `f` maps to nothing can be dropped. */
  lemma FlatMapSkip<T, U>(f: T -> seq<U>, before: seq<T>, x: T, after: seq<T>)
    requires f(x) == []
    ensures FlatMap(f, before + [x] + after) == FlatMap(f, before + after)
  {
    var tail := [x] + after;
    assert before + [x] + after == before + tail;
    assert FlatMap(f, tail) == FlatMap(f, after) by {
      assert tail[0] == x && tail[1..] == after;
    }
    FlatMapAppend(f, before, tail);
    FlatMapAppend(f, before, after);
  }

  /** When `f` only produces elements satisfying `p`, so does `FlatMap(f, _)`. */
  lemma {:induction false} FlatMapAll<T, U>(f: T -> seq<U>, p: U -> bool, xs: seq<T>)
    requires forall x, k :: 0 <= k < |f(x)| ==> p(f(x)[k])
    ensures forall k :: 0 <= k < |FlatMap(f, xs)| ==> p(FlatMap(f, xs)[k])
    decreases |xs|
  {
    if xs != [] {
      var head := f(xs[0]);
      var rest := FlatMap(f, xs[1..]);
      FlatMapAll(f, p, xs[1..]);
      assert FlatMap(f, xs) == head + rest;
      forall k | 0 <= k < |head + rest| ensures p((head + rest)[k]) {
        if k >= |head| {
          assert (head + rest)[k] == rest[k - |head|];
        }
      }
    }
  }

  /** An element of `FlatMap(f, xs)` comes from some element of `xs`. */
  lemma {:induction false} FlatMapMembers<T, U>(f: T -> seq<U>, xs: seq<T>, y: U)
    ensures y in FlatMap(f, xs) <==> exists x :: x in xs && y in f(x)
    decreases |xs|
  {
    if xs != [] {
      FlatMapMembers(f, xs[1..], y);
      assert forall x :: x in xs <==> x == xs[0] || x in xs[1..];
    }
  }

  /** An element of `Map(f, xs)` is the image of some element of `xs`. */
  lemma MapMembers<T, U>(f: T -> U, xs: seq<T>, y: U)
    ensures y in Map(f, xs) <==> exists x :: x in xs && y == f(x)
  {
    if y in Map(f, xs) {
      var k :| 0 <= k < |xs| && Map(f, xs)[k] == y;
      assert xs[k] in xs;
    }
  }

  /** Filtering the images is imaging the filtered elements, when `q`
      holds of an element exactly when `p` holds of its image. */
  lemma {:induction false} FilterMap<T, U>(p: U -> bool, f: T -> U, q: T -> bool, xs: seq<T>)
    requires forall x :: q(x) == p(f(x))
    ensures Filter(p, Map(f, xs)) == Map(f, Filter(q, xs))
    decreases |xs|
  {
    if xs != [] {
      var ys := Map(f, xs);
      assert ys[1..] == Map(f, xs[1..]);
      FilterMap(p, f, q, xs[1..]);
      FilterCons(p, ys);
      FilterCons(q, xs);
      MapAppend(f, if q(xs[0]) then [xs[0]] else [], Filter(q, xs[1..]));
    }
  }

  /** Nothing satisfies `p`: nothing is kept. */
  lemma {:induction false} FilterNone<T>(p: T -> bool, xs: seq<T>)
    requires forall k :: 0 <= k < |xs| ==> !p(xs[k])
    ensures Filter(p, xs) == []
    decreases |xs|
  {
    if xs != [] {
      assert forall k :: 0 <= k < |xs[1..]| ==> xs[1..][k] == xs[k + 1];
      FilterNone(p, xs[1..]);
    }
  }
}
