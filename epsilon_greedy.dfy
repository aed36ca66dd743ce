/** The epsilon-greedy arm selector: explore a uniformly drawn arm with
    probability epsilon, otherwise exploit the best estimate, and pick arm 0
    while nothing has been pulled yet. */
module EpsilonGreedy {
  import opened ArgMax
  import opened Arms

  /** select_arm. The two draws of numpy's generator are parameters: `u` is
      np.random.random() and `k` is np.random.randint(0, nArms), which is
      below nArms. The pull counts, the estimates and epsilon are only read. */
  function SelectArm(nArms: nat, pulls: seq<nat>, estimates: seq<real>, epsilon: real,
                     u: real, k: nat): (arm: nat)
    requires nArms > 0 && |pulls| == nArms && |estimates| == nArms
    requires k < nArms
    ensures arm < nArms
    ensures u < epsilon ==> arm == k
    ensures !(u < epsilon) && (forall i :: 0 <= i < nArms ==> pulls[i] == 0) ==> arm == 0
    ensures !(u < epsilon) && (exists i :: 0 <= i < nArms && pulls[i] > 0) ==>
              IsFirstArgMax(estimates, arm)
  {
    SumZeroIff(pulls);
    if u < epsilon then k
    else if Sum(pulls) == 0 then 0
    else
      FirstArgMaxIsFirst(estimates);
      FirstArgMax(estimates)
  }

  /** With epsilon at most 0 the selector never explores: since the uniform
      draw is never negative, the random arm is never used, so the answer
      does not depend on it; it is arm 0 while nothing has been pulled and
      the first best estimate afterwards. */
  lemma NeverExploresWithoutEpsilon(nArms: nat, pulls: seq<nat>, estimates: seq<real>,
                                    epsilon: real, u: real, k: nat)
    requires nArms > 0 && |pulls| == nArms && |estimates| == nArms && k < nArms
    requires epsilon <= 0.0 <= u
    ensures forall k' :: 0 <= k' < nArms ==>
              SelectArm(nArms, pulls, estimates, epsilon, u, k') == SelectArm(nArms, pulls, estimates, epsilon, u, k)
    ensures var arm := SelectArm(nArms, pulls, estimates, epsilon, u, k);
            && ((forall i :: 0 <= i < nArms ==> pulls[i] == 0) ==> arm == 0)
            && ((exists i :: 0 <= i < nArms && pulls[i] > 0) ==> IsFirstArgMax(estimates, arm))
  {
  }
}
