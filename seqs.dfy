/** Small facts about sequence concatenation and slicing, stated once for
    any element type so that proofs about strings and lines can use them
    without reasoning about sequence equality themselves. */
module Seqs {

  lemma AppendNil<T>(s: seq<T>)
    ensures s + [] == s && [] + s == s
  {
  }

  lemma AppendAssoc<T>(x: seq<T>, y: seq<T>, z: seq<T>)
    ensures x + (y + z) == (x + y) + z
  {
  }

  /** A non-empty sequence is its head followed by its tail. */
  lemma HeadTail<T>(s: seq<T>)
    requires s != []
    ensures [s[0]] + s[1..] == s
  {
  }

  /** The tail of a concatenation with a non-empty front. */
  lemma TailOfAppend<T>(x: seq<T>, y: seq<T>)
    requires x != []
    ensures (x + y)[0] == x[0] && (x + y)[1..] == x[1..] + y
  {
  }

  /** The tail of a sequence that starts with one given element. */
  lemma ConsTail<T>(a: T, x: seq<T>)
    ensures ([a] + x)[0] == a && ([a] + x)[1..] == x
  {
  }

  /** Dropping the last element of a concatenation with a non-empty back. */
  lemma InitLast<T>(x: seq<T>, y: seq<T>)
    requires y != []
    ensures (x + y)[..|x + y| - 1] == x + y[..|y| - 1]
    ensures (x + y)[|x + y| - 1] == y[|y| - 1]
  {
  }

  /** The prefix of `x + [a]` of length `|x|`. */
  lemma SliceExtend<T>(s: seq<T>, i: nat, j: nat)
    requires i <= j < |s|
    ensures s[i..j + 1] == s[i..j] + [s[j]]
  {
  }

  lemma SplitAround<T>(s: seq<T>, j: nat)
    requires j < |s|
    ensures s == (s[..j] + [s[j]]) + s[j + 1..]
  {
  }

  lemma IndexAfter<T>(x: seq<T>, f: T, y: seq<T>)
    ensures |x| < |(x + [f]) + y| && ((x + [f]) + y)[|x|] == f
  {
  }

  lemma TailOfThree<T>(x: T, y: T, z: T)
    ensures [x, y, z][1..] == [y] + [z]
  {
  }
}
