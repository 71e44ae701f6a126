/**
  The two array methods the details pipeline relies on,
  `Array.prototype.filter` and `Array.prototype.map`, over sequences and
  with callbacks that only look at the element.
 */
module Arrays {

  /** `xs.filter(p)`: the elements for which `p` holds. */
  function Filter<T>(xs: seq<T>, p: T -> bool): (r: seq<T>)
    ensures |r| <= |xs|
    ensures forall k :: 0 <= k < |r| ==> p(r[k])
  {
    if xs == [] then []
    else
      var n := |xs| - 1;
      Filter(xs[..n], p) + (if p(xs[n]) then [xs[n]] else [])
  }

  /** The positions of the elements that `xs.filter(p)` keeps. */
  function KeptIndices<T>(xs: seq<T>, p: T -> bool): (idx: seq<nat>)
    ensures forall k :: 0 <= k < |idx| ==> idx[k] < |xs|
  {
    if xs == [] then []
    else
      var n := |xs| - 1;
      KeptIndices(xs[..n], p) + (if p(xs[n]) then [n] else [])
  }

  /** Element by element, the filter's output is the input at the kept positions. */
  lemma {:induction false} FilterAtKeptIndices<T>(xs: seq<T>, p: T -> bool)
    ensures |KeptIndices(xs, p)| == |Filter(xs, p)|
    ensures forall k :: 0 <= k < |Filter(xs, p)| ==> Filter(xs, p)[k] == xs[KeptIndices(xs, p)[k]]
  {
    if xs != [] {
      var n := |xs| - 1;
      var init := xs[..n];
      FilterAtKeptIndices(init, p);
      forall k | 0 <= k < |Filter(xs, p)| ensures Filter(xs, p)[k] == xs[KeptIndices(xs, p)[k]] {
        if k < |Filter(init, p)| {
          assert Filter(xs, p)[k] == Filter(init, p)[k];
          assert KeptIndices(xs, p)[k] == KeptIndices(init, p)[k];
          assert init[KeptIndices(init, p)[k]] == xs[KeptIndices(init, p)[k]];
        }
      }
    }
  }

  /** The kept positions increase, so the filter keeps the order of the input. */
  lemma {:induction false} KeptIndicesIncreasing<T>(xs: seq<T>, p: T -> bool)
    ensures forall k, k' :: 0 <= k < k' < |KeptIndices(xs, p)| ==> KeptIndices(xs, p)[k] < KeptIndices(xs, p)[k']
  {
    if xs != [] {
      KeptIndicesIncreasing(xs[..|xs| - 1], p);
    }
  }

  /** A position is kept exactly when its element satisfies the callback. */
  lemma {:induction false} KeptIndicesExact<T>(xs: seq<T>, p: T -> bool)
    ensures forall j :: 0 <= j < |xs| ==> (j in KeptIndices(xs, p) <==> p(xs[j]))
  {
    if xs != [] {
      var n := |xs| - 1;
      var init := xs[..n];
      var prev := KeptIndices(init, p);
      KeptIndicesExact(init, p);
      assert n !in prev;
      forall j | 0 <= j < |xs| ensures j in KeptIndices(xs, p) <==> p(xs[j]) {
        if j < n {
          assert init[j] == xs[j];
        } else if p(xs[n]) {
          assert KeptIndices(xs, p)[|prev|] == n;
        }
      }
    }
  }

  /** When every element satisfies the callback, the filter returns its input. */
  lemma {:induction false} FilterKeepsAll<T>(xs: seq<T>, p: T -> bool)
    requires forall k :: 0 <= k < |xs| ==> p(xs[k])
    ensures Filter(xs, p) == xs
  {
    if xs != [] {
      var n := |xs| - 1;
      FilterKeepsAll(xs[..n], p);
      assert xs[..n] + [xs[n]] == xs;
    }
  }

  /** `xs.map(f)`: `f` applied to every element, in order. */
  function Map<T, U>(xs: seq<T>, f: T -> U): (r: seq<U>)
    ensures |r| == |xs|
    ensures forall k :: 0 <= k < |xs| ==> r[k] == f(xs[k])
  {
    if xs == [] then [] else [f(xs[0])] + Map(xs[1..], f)
  }
}
