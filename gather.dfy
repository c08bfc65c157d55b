/** A loop that walks a sequence and appends what each element contributes, stated once for
    any element type and any per-element step, so that its laws are proved without looking
    inside the step. */
module Gather {

  /** What the loop has appended after walking `xs`: `f(x)` for each `x`, in order. */
  function FlatMap<X, Y>(xs: seq<X>, f: X -> seq<Y>): seq<Y> {
    if xs == [] then []
    else FlatMap(xs[..|xs| - 1], f) + f(xs[|xs| - 1])
  }

  /** One more element appends what it contributes at the end. */
  lemma FlatMapSnoc<X, Y>(xs: seq<X>, x: X, f: X -> seq<Y>)
    ensures FlatMap(xs + [x], f) == FlatMap(xs, f) + f(x)
  {
    assert (xs + [x])[..|xs|] == xs;
  }

  /** Walking two stretches one after the other appends the results one after the other. */
  lemma {:induction false} FlatMapConcat<X, Y>(a: seq<X>, b: seq<X>, f: X -> seq<Y>)
    ensures FlatMap(a + b, f) == FlatMap(a, f) + FlatMap(b, f)
    decreases |b|
  {
    if b == [] {
      assert a + b == a;
    } else {
      var b', x := b[..|b| - 1], b[|b| - 1];
      calc {
        FlatMap(a + b, f);
        { assert a + b == (a + b') + [x]; }
        FlatMap((a + b') + [x], f);
        { FlatMapSnoc(a + b', x, f); }
        FlatMap(a + b', f) + f(x);
        { FlatMapConcat(a, b', f); }
        (FlatMap(a, f) + FlatMap(b', f)) + f(x);
        FlatMap(a, f) + (FlatMap(b', f) + f(x));
        { FlatMapSnoc(b', x, f); assert b' + [x] == b; }
        FlatMap(a, f) + FlatMap(b, f);
      }
    }
  }

  /** The positions of the elements that satisfy `p`, in increasing order. */
  function Hits<X>(xs: seq<X>, p: X -> bool): (idx: seq<nat>)
    ensures |idx| <= |xs|
    ensures forall k :: 0 <= k < |idx| ==> idx[k] < |xs|
    ensures forall k, m :: 0 <= k < m < |idx| ==> idx[k] < idx[m]
  {
    if xs == [] then []
    else Hits(xs[..|xs| - 1], p) + (if p(xs[|xs| - 1]) then [|xs| - 1] else [])
  }

  /** Every listed position satisfies `p`. */
  lemma {:induction false} HitsSound<X>(xs: seq<X>, p: X -> bool)
    ensures forall k :: 0 <= k < |Hits(xs, p)| ==> p(xs[Hits(xs, p)[k]])
  {
    if xs != [] {
      var n := |xs| - 1;
      var init := xs[..n];
      HitsSound(init, p);
      var idx0, idx := Hits(init, p), Hits(xs, p);
      assert idx == idx0 + if p(xs[n]) then [n] else [];
      forall k | 0 <= k < |idx| ensures p(xs[idx[k]]) {
        if k < |idx0| {
          assert idx[k] == idx0[k] && init[idx0[k]] == xs[idx0[k]];
        }
      }
    }
  }

  /** Every position that satisfies `p` is listed. */
  lemma {:induction false} HitsComplete<X>(xs: seq<X>, p: X -> bool)
    ensures forall i :: 0 <= i < |xs| && p(xs[i]) ==> i in Hits(xs, p)
  {
    if xs != [] {
      var n := |xs| - 1;
      var init := xs[..n];
      HitsComplete(init, p);
      var idx0, idx := Hits(init, p), Hits(xs, p);
      assert idx == idx0 + if p(xs[n]) then [n] else [];
      forall i | 0 <= i < |xs| && p(xs[i]) ensures i in idx {
        if i < n {
          assert init[i] == xs[i];
          assert i in idx0;
        }
      }
    }
  }

  /** When every element contributes one item exactly when it satisfies `p` and nothing
      otherwise, the k-th item appended is the one contributed by the k-th element that
      satisfies `p`. */
  lemma {:induction false} FlatMapAtHits<X, Y>(xs: seq<X>, f: X -> seq<Y>, p: X -> bool)
    requires forall x :: |f(x)| == if p(x) then 1 else 0
    ensures |FlatMap(xs, f)| == |Hits(xs, p)|
    ensures forall k :: 0 <= k < |Hits(xs, p)| ==>
      p(xs[Hits(xs, p)[k]]) && FlatMap(xs, f)[k] == f(xs[Hits(xs, p)[k]])[0]
  {
    HitsSound(xs, p);
    if xs != [] {
      var n := |xs| - 1;
      var init := xs[..n];
      FlatMapAtHits(init, f, p);
      var idx0, idx := Hits(init, p), Hits(xs, p);
      var out0, out := FlatMap(init, f), FlatMap(xs, f);
      assert idx == idx0 + if p(xs[n]) then [n] else [];
      assert out == out0 + f(xs[n]);
      forall k | 0 <= k < |idx| ensures p(xs[idx[k]]) && out[k] == f(xs[idx[k]])[0] {
        if k < |idx0| {
          assert idx[k] == idx0[k] && init[idx0[k]] == xs[idx0[k]];
          assert out[k] == out0[k];
        }
      }
    }
  }
}
