/**
 * An ordered chain of extractors tried one after another, the first success winning. The
 * pipeline has two such chains: the publication date of an entry and its content field.
 */
module Fallback {

  /** What one extractor of a chain produced: nothing usable (the chain goes on), an exception
      that escapes the chain, or a value. */
  datatype Attempt<T> = Missed | Crashed | Got(value: T)

  /** The chain's result: the first attempt that is not `Missed`, or `Missed` when all are. */
  function FirstSuccess<T>(xs: seq<Attempt<T>>): (r: Attempt<T>)
    ensures r.Missed? <==> forall k :: 0 <= k < |xs| ==> xs[k].Missed?
    ensures !r.Missed? ==> exists k :: 0 <= k < |xs| && xs[k] == r && forall j :: 0 <= j < k ==> xs[j].Missed?
  {
    if xs == [] then Missed
    else if !xs[0].Missed? then xs[0]
    else
      var r := FirstSuccess(xs[1..]);
      assert forall k :: 0 <= k < |xs| - 1 ==> xs[1..][k] == xs[k + 1];
      r
  }

  /** The attempt, if any, that decides the chain is the first one that is not `Missed`: any
      later attempt is never consulted. */
  lemma {:induction false} FirstSuccessAt<T>(xs: seq<Attempt<T>>, k: nat)
    requires k < |xs| && !xs[k].Missed?
    requires forall j :: 0 <= j < k ==> xs[j].Missed?
    ensures FirstSuccess(xs) == xs[k]
  {
    if k > 0 {
      FirstSuccessAt(xs[1..], k - 1);
    }
  }
}
