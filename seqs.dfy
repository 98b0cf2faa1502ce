/** Concatenating the images of a list's elements, the shape of every loop in
    the pipeline that extends a result list item by item. */
module Seqs {

  /** The concatenation of `f(x)` over the elements `x` of `xs`, in order. */
  function ConcatMap<T, U>(f: T -> seq<U>, xs: seq<T>): seq<U> {
    if xs == [] then [] else ConcatMap(f, xs[..|xs| - 1]) + f(xs[|xs| - 1])
  }

  /** One more element extends the result by its image: one turn of a loop. */
  lemma ConcatMapSnoc<T, U>(f: T -> seq<U>, xs: seq<T>, i: nat)
    requires i < |xs|
    ensures ConcatMap(f, xs[..i + 1]) == ConcatMap(f, xs[..i]) + f(xs[i])
  {
    assert xs[..i + 1][..i] == xs[..i];
  }

  /** The whole list, once the loop index has reached its end. */
  lemma ConcatMapAll<T, U>(f: T -> seq<U>, xs: seq<T>)
    ensures ConcatMap(f, xs[..|xs|]) == ConcatMap(f, xs)
  {
    assert xs[..|xs|] == xs;
  }

  /** The result of a concatenation is the concatenation of the results. */
  lemma {:induction false} ConcatMapAppend<T, U>(f: T -> seq<U>, a: seq<T>, b: seq<T>)
    ensures ConcatMap(f, a + b) == ConcatMap(f, a) + ConcatMap(f, b)
    decreases |b|
  {
    if b == [] {
      assert a + b == a;
    } else {
      var b' := b[..|b| - 1];
      ConcatMapAppend(f, a, b');
      assert (a + b)[..|a + b| - 1] == a + b';
      assert (a + b)[|a + b| - 1] == b[|b| - 1];
    }
  }

  /** Each element contributes its image in its own place. */
  lemma ConcatMapAround<T, U>(f: T -> seq<U>, a: seq<T>, x: T, b: seq<T>)
    ensures ConcatMap(f, a + [x] + b) == ConcatMap(f, a) + f(x) + ConcatMap(f, b)
  {
    ConcatMapAppend(f, a + [x], b);
    ConcatMapAppend(f, a, [x]);
    assert ConcatMap(f, [x]) == f(x) by {
      assert [x][..0] == [];
    }
  }

  /** An element whose image is empty leaves no trace. */
  lemma ConcatMapDrop<T, U>(f: T -> seq<U>, a: seq<T>, x: T, b: seq<T>)
    requires f(x) == []
    ensures ConcatMap(f, a + [x] + b) == ConcatMap(f, a + b)
  {
    ConcatMapAround(f, a, x, b);
    ConcatMapAppend(f, a, b);
    assert ConcatMap(f, a) + f(x) == ConcatMap(f, a);
  }

  /** A property every image has holds of every element of the result. */
  lemma {:induction false} ConcatMapEvery<T, U>(f: T -> seq<U>, xs: seq<T>, p: U -> bool)
    requires forall i, y :: 0 <= i < |xs| && y in f(xs[i]) ==> p(y)
    ensures forall y :: y in ConcatMap(f, xs) ==> p(y)
  {
    if xs != [] {
      ConcatMapEvery(f, xs[..|xs| - 1], p);
    }
  }
}
