/** Facts about slices of sequences that the proofs elsewhere use step by
    step. */
module Seqs {

  /** A list is a prefix of itself with anything appended. */
  lemma AppendPrefix<T>(xs: seq<T>, ys: seq<T>)
    ensures (xs + ys)[..|xs|] == xs
  {
  }

  /** A list that begins with `xs + ys` begins with `xs`. */
  lemma PrefixOfPrefix<T>(xs: seq<T>, ys: seq<T>, zs: seq<T>)
    requires |xs + ys| <= |zs| && zs[..|xs + ys|] == xs + ys
    ensures |xs| <= |zs| && zs[..|xs|] == xs
  {
    assert zs[..|xs|] == zs[..|xs + ys|][..|xs|];
  }

  lemma TakeTake<T>(xs: seq<T>, n: nat, m: nat)
    requires m <= n <= |xs|
    ensures xs[..n][..m] == xs[..m]
  {
  }

  /** A non-empty list is its front with its last element appended. */
  lemma SnocLast<T>(xs: seq<T>)
    requires xs != []
    ensures xs == xs[..|xs| - 1] + [xs[|xs| - 1]]
  {
  }

  /** One more element taken is one element appended. */
  lemma TakeSnoc<T>(xs: seq<T>, i: nat)
    requires i < |xs|
    ensures xs[..i + 1] == xs[..i] + [xs[i]]
  {
  }

  /** Dropping `i` elements leaves element `i` in front of the rest. */
  lemma DropCons<T>(xs: seq<T>, i: nat)
    requires i < |xs|
    ensures xs[i..] == [xs[i]] + xs[i + 1..]
  {
  }
}
