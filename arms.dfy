/** The per-arm bookkeeping the bandit selectors read: how often each arm has
    been pulled. The base class that updates it is not part of this model, so
    the counts reach the selectors as a sequence. */
module Arms {

  /** np.sum over the pull counts. */
  function Sum(pulls: seq<nat>): nat
  {
    if pulls == [] then 0 else pulls[0] + Sum(pulls[1..])
  }

  /** The total is zero exactly when no arm has been pulled. */
  lemma {:induction false} SumZeroIff(pulls: seq<nat>)
    ensures Sum(pulls) == 0 <==> forall i :: 0 <= i < |pulls| ==> pulls[i] == 0
  {
    if pulls != [] {
      SumZeroIff(pulls[1..]);
      assert forall i :: 1 <= i < |pulls| ==> pulls[i] == pulls[1..][i - 1];
    }
  }

  /** When every arm has been pulled, the total is at least the number of arms. */
  lemma {:induction false} SumAtLeastLength(pulls: seq<nat>)
    requires forall i :: 0 <= i < |pulls| ==> pulls[i] > 0
    ensures Sum(pulls) >= |pulls|
  {
    if pulls != [] {
      assert forall i :: 0 <= i < |pulls[1..]| ==> pulls[1..][i] == pulls[i + 1];
      SumAtLeastLength(pulls[1..]);
    }
  }
}
