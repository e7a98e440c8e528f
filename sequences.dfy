/** Sums and concatenations of sequences, shared by the segment tables, the
    chunking of the frame list and the concatenation of packed frames. */
module Sequences {

  /** Sum of the elements. */
  function Sum(xs: seq<int>): int
  {
    if xs == [] then 0 else Sum(xs[..|xs| - 1]) + xs[|xs| - 1]
  }

  /** The pieces joined in order. */
  function Concat<T>(pieces: seq<seq<T>>): seq<T>
  {
    if pieces == [] then [] else Concat(pieces[..|pieces| - 1]) + pieces[|pieces| - 1]
  }

  /** Appending one element adds it to the sum. */
  lemma SumAppend(xs: seq<int>, x: int)
    ensures Sum(xs + [x]) == Sum(xs) + x
  {
    assert (xs + [x])[..|xs|] == xs;
  }

  /** Appending one piece appends its elements. */
  lemma ConcatAppend<T>(pieces: seq<seq<T>>, piece: seq<T>)
    ensures Concat(pieces + [piece]) == Concat(pieces) + piece
  {
    assert (pieces + [piece])[..|pieces|] == pieces;
  }

  /** Sums of non-negative elements grow along prefixes. */
  lemma {:induction false} SumPrefix(xs: seq<int>, i: int)
    requires 0 <= i <= |xs|
    requires forall k :: 0 <= k < |xs| ==> xs[k] >= 0
    ensures 0 <= Sum(xs[..i]) <= Sum(xs)
    decreases |xs|
  {
    if i < |xs| {
      var init := xs[..|xs| - 1];
      assert init[..i] == xs[..i];
      SumPrefix(init, i);
    } else {
      assert xs[..i] == xs;
      if xs != [] {
        SumPrefix(xs[..|xs| - 1], |xs| - 1);
      }
    }
  }
}
