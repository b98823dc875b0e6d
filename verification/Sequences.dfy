/** Sequences of pieces, and slices of slices. */
module Sequences {

  /** The pieces one after the other. */
  function Concat<T>(pieces: seq<seq<T>>): seq<T>
    decreases |pieces|
  {
    if pieces == [] then [] else Concat(pieces[..|pieces| - 1]) + pieces[|pieces| - 1]
  }

  lemma ConcatNone<T>()
    ensures Concat<T>([]) == []
  {
  }

  lemma ConcatNext<T>(pieces: seq<seq<T>>, i: nat)
    requires i < |pieces|
    ensures Concat(pieces[..i + 1]) == Concat(pieces[..i]) + pieces[i]
  {
    assert pieces[..i + 1][..i] == pieces[..i];
  }

  lemma {:induction false} ConcatPrefix<T>(pieces: seq<seq<T>>, n: nat)
    requires n <= |pieces|
    ensures |Concat(pieces[..n])| <= |Concat(pieces)|
    decreases |pieces|
  {
    if n < |pieces| {
      ConcatPrefix(pieces[..|pieces| - 1], n);
      assert pieces[..|pieces| - 1][..n] == pieces[..n];
    } else {
      assert pieces[..n] == pieces;
    }
  }

  lemma SubSlice<T>(x: seq<T>, i: nat, j: nat, p: nat, q: nat)
    requires i <= j <= |x| && p <= q <= j - i
    ensures x[i..j][p..q] == x[i + p..i + q]
  {
    forall k | 0 <= k < q - p ensures x[i..j][p..q][k] == x[i + p..i + q][k] {
      assert x[i..j][p + k] == x[i + (p + k)];
    }
  }
}
