/** Order-preserving embeddings: the reference meaning of "is a subsequence of". */
module Subsequences {

  /** `idx` lists strictly increasing positions of `s` whose elements spell out `q`. */
  ghost predicate IsEmbedding<T>(idx: seq<int>, q: seq<T>, s: seq<T>)
  {
    && |idx| == |q|
    && (forall i :: 0 <= i < |idx| ==> 0 <= idx[i] < |s| && s[idx[i]] == q[i])
    && (forall i, j :: 0 <= i < j < |idx| ==> idx[i] < idx[j])
  }

  /** `q` occurs in `s` in order, not necessarily contiguously. */
  ghost predicate IsSubsequence<T>(q: seq<T>, s: seq<T>)
  {
    exists idx :: IsEmbedding(idx, q, s)
  }
}
