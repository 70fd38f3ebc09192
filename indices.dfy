/** The positions of a sequence whose elements satisfy a predicate, in increasing
    order. This is the reference against which every order-preserving filter of
    the model (search results, surviving fetches, streamed deltas) is stated. */
module Indices {

  function Where<T>(s: seq<T>, p: T -> bool): (idx: seq<nat>)
    ensures forall j :: 0 <= j < |idx| ==> idx[j] < |s| && p(s[idx[j]])
    ensures forall j, k :: 0 <= j < k < |idx| ==> idx[j] < idx[k]
    ensures forall i :: 0 <= i < |s| && p(s[i]) ==> i in idx
    ensures |idx| <= |s|
  {
    if |s| == 0 then []
    else Where(s[..|s| - 1], p) + (if p(s[|s| - 1]) then [|s| - 1] else [])
  }

  /** No element satisfies p: no position is selected. */
  lemma {:induction false} WhereNone<T>(s: seq<T>, p: T -> bool)
    requires forall i :: 0 <= i < |s| ==> !p(s[i])
    ensures Where(s, p) == []
  {
    if |s| > 0 {
      WhereNone(s[..|s| - 1], p);
    }
  }
}
