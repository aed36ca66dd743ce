/** The UCB1 arm selector: play every arm once, in index order, then pick the
    arm whose estimate plus exploration bonus is largest. */
module Ucb {
  import opened ArgMax
  import opened Arms

  /** The arguments of the logarithm and of the division: positive integers. */
  type Pos = n: int | n > 0 witness 1

  /** np.where(pulls == 0)[0] restricted to indices from `from` on. */
  function Unpulled(pulls: seq<nat>, from: nat): seq<nat>
    requires from <= |pulls|
    decreases |pulls| - from
  {
    if from == |pulls| then []
    else if pulls[from] == 0 then [from] + Unpulled(pulls, from + 1)
    else Unpulled(pulls, from + 1)
  }

  /** Every entry of Unpulled is an unpulled arm from `from` on. */
  lemma {:induction false} UnpulledSound(pulls: seq<nat>, from: nat)
    requires from <= |pulls|
    ensures forall j :: 0 <= j < |Unpulled(pulls, from)| ==>
              from <= Unpulled(pulls, from)[j] < |pulls| && pulls[Unpulled(pulls, from)[j]] == 0
    decreases |pulls| - from
  {
    if from < |pulls| {
      UnpulledSound(pulls, from + 1);
      var rest := Unpulled(pulls, from + 1);
      var r := Unpulled(pulls, from);
      forall j | 0 <= j < |r| ensures from <= r[j] < |pulls| && pulls[r[j]] == 0 {
        if pulls[from] == 0 {
          if j > 0 {
            assert r[j] == rest[j - 1];
          }
        } else {
          assert r[j] == rest[j];
        }
      }
    }
  }

  /** Every unpulled arm from `from` on is listed by Unpulled. */
  lemma {:induction false} UnpulledComplete(pulls: seq<nat>, from: nat)
    requires from <= |pulls|
    ensures forall i :: from <= i < |pulls| && pulls[i] == 0 ==> i in Unpulled(pulls, from)
    decreases |pulls| - from
  {
    if from < |pulls| {
      UnpulledComplete(pulls, from + 1);
    }
  }

  /** Unpulled lists exactly the unpulled arms from `from` on. */
  lemma UnpulledExactly(pulls: seq<nat>, from: nat)
    requires from <= |pulls|
    ensures var r := Unpulled(pulls, from);
            && (forall j :: 0 <= j < |r| ==> from <= r[j] < |pulls| && pulls[r[j]] == 0)
            && (forall i :: from <= i < |pulls| && pulls[i] == 0 ==> i in r)
  {
    UnpulledSound(pulls, from);
    UnpulledComplete(pulls, from);
  }

  /** Unpulled lists the arms in increasing order, so its first entry is
      preceded only by pulled arms. */
  lemma {:induction false} UnpulledIncreasing(pulls: seq<nat>, from: nat)
    requires from <= |pulls|
    ensures var r := Unpulled(pulls, from);
            && (forall j1, j2 :: 0 <= j1 < j2 < |r| ==> r[j1] < r[j2])
            && (|r| > 0 ==> forall i :: from <= i < |pulls| && i < r[0] ==> pulls[i] > 0)
    decreases |pulls| - from
  {
    if from < |pulls| {
      UnpulledSound(pulls, from + 1);
      UnpulledIncreasing(pulls, from + 1);
      var rest := Unpulled(pulls, from + 1);
      var r := Unpulled(pulls, from);
      if pulls[from] == 0 {
        forall j1, j2 | 0 <= j1 < j2 < |r| ensures r[j1] < r[j2] {
          assert r[j2] == rest[j2 - 1];
          if j1 > 0 {
            assert r[j1] == rest[j1 - 1];
          }
        }
      } else {
        assert r == rest;
      }
    }
  }

  /** estimates + c * sqrt(log(total) / pulls), where `bonus(total, n)` stands
      for sqrt(log(total) / n). Only defined once every arm has been pulled,
      so both arguments of `bonus` are positive. */
  function Values(pulls: seq<nat>, estimates: seq<real>, c: real,
                  bonus: (Pos, Pos) -> real): (vs: seq<real>)
    requires |estimates| == |pulls|
    requires forall i :: 0 <= i < |pulls| ==> pulls[i] > 0
    ensures |vs| == |pulls|
  {
    SumAtLeastLength(pulls);
    if pulls == [] then []
    else
      var total: Pos := Sum(pulls);
      seq(|pulls|, i requires 0 <= i < |pulls| => estimates[i] + c * bonus(total, pulls[i]))
  }

  /** select_arm over the counts and estimates the base class keeps. */
  function SelectArm(pulls: seq<nat>, estimates: seq<real>, c: real,
                     bonus: (Pos, Pos) -> real): (arm: nat)
    requires |pulls| > 0 && |estimates| == |pulls|
    ensures arm < |pulls|
    ensures (exists i :: 0 <= i < |pulls| && pulls[i] == 0) ==>
              pulls[arm] == 0 && forall j :: 0 <= j < arm ==> pulls[j] > 0
    ensures (forall i :: 0 <= i < |pulls| ==> pulls[i] > 0) ==>
              IsFirstArgMax(Values(pulls, estimates, c, bonus), arm)
  {
    var unpulled := Unpulled(pulls, 0);
    UnpulledExactly(pulls, 0);
    UnpulledIncreasing(pulls, 0);
    if |unpulled| > 0 then unpulled[0]
    else
      FirstArgMaxIsFirst(Values(pulls, estimates, c, bonus));
      FirstArgMax(Values(pulls, estimates, c, bonus))
  }
}
