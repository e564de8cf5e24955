/** Order-preserving selections: `sub` is the subsequence of `s` at the positions `idx`. */
module Seqs {

  ghost predicate StrictlyIncreasing(idx: seq<nat>)
  {
    forall a, b :: 0 <= a < b < |idx| ==> idx[a] < idx[b]
  }

  /** `sub` lists, in order, the elements of `s` found at the strictly increasing positions `idx`. */
  ghost predicate SubsequenceAt<T>(sub: seq<T>, s: seq<T>, idx: seq<nat>)
  {
    && |sub| == |idx|
    && StrictlyIncreasing(idx)
    && (forall k :: 0 <= k < |idx| ==> idx[k] < |s| && sub[k] == s[idx[k]])
  }

  /** Selecting one more element, past every position selected so far, extends the subsequence. */
  lemma SubsequenceAppend<T>(sub: seq<T>, s: seq<T>, idx: seq<nat>, i: nat)
    requires SubsequenceAt(sub, s, idx)
    requires i < |s|
    requires forall k :: 0 <= k < |idx| ==> idx[k] < i
    ensures SubsequenceAt(sub + [s[i]], s, idx + [i])
  {
  }

  /** A subsequence of a prefix is a subsequence of the whole, at the same positions. */
  lemma SubsequenceOfPrefix<T>(sub: seq<T>, s: seq<T>, idx: seq<nat>, n: nat)
    requires n <= |s|
    requires SubsequenceAt(sub, s[..n], idx)
    ensures SubsequenceAt(sub, s, idx)
  {
    assert forall k :: 0 <= k < |idx| ==> s[..n][idx[k]] == s[idx[k]];
  }
}
