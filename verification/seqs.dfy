/** Element-wise mapping over sequences and how it distributes over sequence operations. */
module Seqs {

  function Map<A, B>(f: A -> B, xs: seq<A>): (ys: seq<B>)
    ensures |ys| == |xs|
    ensures forall i | 0 <= i < |xs| :: ys[i] == f(xs[i])
  {
    seq(|xs|, i requires 0 <= i < |xs| => f(xs[i]))
  }

  lemma MapCons<A, B>(f: A -> B, x: A, xs: seq<A>)
    ensures Map(f, [x] + xs) == [f(x)] + Map(f, xs)
  {
  }

  lemma MapAppend<A, B>(f: A -> B, xs: seq<A>, ys: seq<A>)
    ensures Map(f, xs + ys) == Map(f, xs) + Map(f, ys)
  {
  }

  lemma MapTake<A, B>(f: A -> B, xs: seq<A>, n: nat)
    requires n <= |xs|
    ensures Map(f, xs[..n]) == Map(f, xs)[..n]
  {
  }

  lemma MapPair<A, B>(f: A -> B, x: A, y: A, xs: seq<A>)
    ensures Map(f, [x, y] + xs) == [f(x), f(y)] + Map(f, xs)
  {
  }
}
