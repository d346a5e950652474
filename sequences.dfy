/** Order-related notions over sequences, stated independently of any filter. */
module Sequences {

  /** `sub` is obtained from `s` by deleting zero or more elements and keeping
      the rest in their original relative order. */
  predicate IsSubsequence<T(==)>(sub: seq<T>, s: seq<T>)
    decreases |s|
  {
    if sub == [] then true
    else if s == [] then false
    else (sub[0] == s[0] && IsSubsequence(sub[1..], s[1..])) || IsSubsequence(sub, s[1..])
  }

  /** Every index is smaller than every index that follows it. */
  predicate StrictlyIncreasing(idx: seq<nat>) {
    forall i, j :: 0 <= i < j < |idx| ==> idx[i] < idx[j]
  }
}
