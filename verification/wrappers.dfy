/** Failure-compatible wrappers and a generic filter-map used by every layer of the model. */
module Wrappers {

  /** JavaScript's `undefined`/`null` versus a present value. */
  datatype Option<+T> = None | Some(value: T) {

    /** The value, or the given default (`??` in JavaScript). */
    function GetOr(default: T): T {
      match this
      case Some(v) => v
      case None => default
    }
  }

  /** A computation that either yields a value or fails with an error (a thrown `Error`). */
  datatype Result<+R, +E> = Success(value: R) | Failure(error: E)

  /** Keeps, in order, the present results of `f` over `xs` (`map` followed by `filter`). */
  function FilterMap<A, B>(xs: seq<A>, f: A -> Option<B>): (r: seq<B>)
    ensures |r| <= |xs|
    ensures forall i :: 0 <= i < |xs| && f(xs[i]).Some? ==> f(xs[i]).value in r
    ensures forall y :: y in r ==> exists i :: 0 <= i < |xs| && f(xs[i]) == Some(y)
  {
    if |xs| == 0 then []
    else
      var rest := FilterMap(xs[1..], f);
      assert forall i :: 1 <= i < |xs| ==> xs[i] == xs[1..][i - 1];
      match f(xs[0])
      case Some(y) => [y] + rest
      case None => rest
  }

  /** Appending one element extends the filter-map by that element's image, if any. */
  lemma {:induction false} FilterMapSnoc<A, B>(xs: seq<A>, x: A, f: A -> Option<B>)
    ensures FilterMap(xs + [x], f)
            == FilterMap(xs, f) + (if f(x).Some? then [f(x).value] else [])
    decreases |xs|
  {
    if |xs| == 0 {
      assert xs + [x] == [x];
      assert [x][1..] == [];
    } else {
      assert (xs + [x])[1..] == xs[1..] + [x];
      FilterMapSnoc(xs[1..], x, f);
    }
  }

  /** If nothing in `xs` has an image, the filter-map is empty, and conversely. */
  lemma {:induction false} FilterMapEmpty<A, B>(xs: seq<A>, f: A -> Option<B>)
    ensures FilterMap(xs, f) == [] <==> forall i :: 0 <= i < |xs| ==> f(xs[i]).None?
    decreases |xs|
  {
    if |xs| > 0 {
      FilterMapEmpty(xs[1..], f);
      assert forall i :: 1 <= i < |xs| ==> xs[i] == xs[1..][i - 1];
    }
  }

  /** The images of `f` over `xs`, concatenated in order (`flatMap`, or nested loops pushing into
      one array). */
  function FlatMap<A, B>(xs: seq<A>, f: A -> seq<B>): (r: seq<B>)
    ensures forall i, y :: 0 <= i < |xs| && y in f(xs[i]) ==> y in r
    ensures forall y :: y in r ==> exists i :: 0 <= i < |xs| && y in f(xs[i])
    ensures r == [] <==> forall i :: 0 <= i < |xs| ==> f(xs[i]) == []
  {
    if |xs| == 0 then []
    else
      var rest := FlatMap(xs[1..], f);
      assert forall i :: 1 <= i < |xs| ==> xs[i] == xs[1..][i - 1];
      f(xs[0]) + rest
  }

  /** Appending one element extends the flat-map by that element's image: the images are
      concatenated in input order. */
  lemma {:induction false} FlatMapSnoc<A, B>(xs: seq<A>, x: A, f: A -> seq<B>)
    ensures FlatMap(xs + [x], f) == FlatMap(xs, f) + f(x)
    decreases |xs|
  {
    if |xs| == 0 {
      assert xs + [x] == [x];
      assert [x][1..] == [];
    } else {
      assert (xs + [x])[1..] == xs[1..] + [x];
      FlatMapSnoc(xs[1..], x, f);
    }
  }
}
