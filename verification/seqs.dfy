/** Sequence utilities shared by the model. */
module Seqs {

  /** `f` applied to every element, in order. */
  function MapSeq<A, B>(f: A -> B, xs: seq<A>): (ys: seq<B>)
    ensures |ys| == |xs|
  {
    if |xs| == 0 then [] else [f(xs[0])] + MapSeq(f, xs[1..])
  }

  /** Element `i` of the result is `f` of element `i`. */
  lemma {:induction false} MapSeqSpec<A, B>(f: A -> B, xs: seq<A>)
    ensures forall i :: 0 <= i < |xs| ==> MapSeq(f, xs)[i] == f(xs[i])
  {
    if |xs| > 0 {
      MapSeqSpec(f, xs[1..]);
      assert forall i :: 1 <= i < |xs| ==> xs[1..][i - 1] == xs[i];
    }
  }

  /** Mapping over an element in front of others puts its image in front. */
  lemma MapSeqCons<A, B>(f: A -> B, x: A, xs: seq<A>)
    ensures MapSeq(f, [x] + xs) == [f(x)] + MapSeq(f, xs)
  {
    assert ([x] + xs)[1..] == xs;
  }

  /** Mapping over four elements, written out. */
  lemma MapSeqFour<A, B>(f: A -> B, a: A, b: A, c: A, d: A)
    ensures MapSeq(f, [a, b, c, d]) == [f(a), f(b), f(c), f(d)]
  {
    MapSeqCons(f, d, []);
    assert [d] == [d] + [];
    MapSeqCons(f, c, [d]);
    MapSeqCons(f, b, [c, d]);
    MapSeqCons(f, a, [b, c, d]);
    assert [a, b, c, d] == [a] + [b, c, d];
  }
}
