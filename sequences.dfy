/** Facts about sequences that the services' copying loops share. */
module Sequences {

  /** One more element of `xs` taken by a loop that copies it. */
  lemma PrefixStep<T>(xs: seq<T>, i: nat, prev: seq<T>, x: T)
    requires i < |xs| && prev == xs[..i] && x == xs[i]
    ensures prev + [x] == xs[..i + 1]
  {
    assert xs[..i + 1] == xs[..i] + [xs[i]];
  }

}
