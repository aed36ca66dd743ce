/** First-index argmax over reals, the tie-break rule shared by every
    selector here: a running best replaced only on a strictly greater value
    (numpy's argmax, Python's list.index(max(...)), and the explicit
    `if x > best` loops of the planners). */
module ArgMax {

  /** k holds a maximal value of xs and no earlier index holds one. */
  ghost predicate IsFirstArgMax(xs: seq<real>, k: int)
  {
    && 0 <= k < |xs|
    && (forall j :: 0 <= j < |xs| ==> xs[j] <= xs[k])
    && (forall j :: 0 <= j < k ==> xs[j] < xs[k])
  }

  /** The scan from left to right that keeps the first strict maximum. Its
      characterisation is the lemma below, so that expanding the scan does
      not bring the whole characterisation along. */
  function FirstArgMax(xs: seq<real>): (k: nat)
    requires |xs| > 0
    ensures k < |xs|
  {
    if |xs| == 1 then 0
    else
      var k := FirstArgMax(xs[..|xs| - 1]);
      if xs[|xs| - 1] > xs[k] then |xs| - 1 else k
  }

  /** The scan finds the first maximum. */
  lemma {:induction false} FirstArgMaxIsFirst(xs: seq<real>)
    requires |xs| > 0
    ensures IsFirstArgMax(xs, FirstArgMax(xs))
  {
    if |xs| > 1 {
      var init := xs[..|xs| - 1];
      FirstArgMaxIsFirst(init);
      assert forall j :: 0 <= j < |init| ==> init[j] == xs[j];
    }
  }

  /** At most one index is the first maximum. */
  lemma FirstArgMaxUnique(xs: seq<real>, k1: int, k2: int)
    requires IsFirstArgMax(xs, k1) && IsFirstArgMax(xs, k2)
    ensures k1 == k2
  {
    // each is at least as large as the other, so neither lies strictly before
    assert xs[k1] <= xs[k2] && xs[k2] <= xs[k1];
  }

  /** The largest element: the value the `if q > max_q` loops end with. */
  function Max(xs: seq<real>): real
    requires |xs| > 0
  {
    xs[FirstArgMax(xs)]
  }

  /** Max is an upper bound of xs that xs attains. */
  lemma MaxIsMax(xs: seq<real>)
    requires |xs| > 0
    ensures forall j :: 0 <= j < |xs| ==> xs[j] <= Max(xs)
    ensures exists j :: 0 <= j < |xs| && xs[j] == Max(xs)
  {
    FirstArgMaxIsFirst(xs);
  }

  /** An upper bound that xs attains is its maximum. */
  lemma MaxCharacterised(xs: seq<real>, m: real)
    requires |xs| > 0
    requires forall j :: 0 <= j < |xs| ==> xs[j] <= m
    requires exists j :: 0 <= j < |xs| && xs[j] == m
    ensures m == Max(xs)
  {
    MaxIsMax(xs);
    var j :| 0 <= j < |xs| && xs[j] == m;
    assert m <= Max(xs);
  }

  /** The first position of v in xs: Python's list.index. */
  function IndexOf(xs: seq<real>, v: real): (k: nat)
    requires exists j :: 0 <= j < |xs| && xs[j] == v
    ensures k < |xs| && xs[k] == v
    ensures forall j :: 0 <= j < k ==> xs[j] != v
  {
    if xs[0] == v then 0
    else
      assert exists j :: 0 <= j < |xs[1..]| && xs[1..][j] == v by {
        var j :| 0 <= j < |xs| && xs[j] == v;
        assert j > 0 && xs[1..][j - 1] == v;
      }
      1 + IndexOf(xs[1..], v)
  }

  /** xs.index(max(xs)) is the first argmax. */
  lemma IndexOfMaxIsFirstArgMax(xs: seq<real>)
    requires |xs| > 0
    ensures IndexOf(xs, Max(xs)) == FirstArgMax(xs)
  {
    FirstArgMaxIsFirst(xs);
    var k := FirstArgMax(xs);
    assert xs[k] == Max(xs);
  }
}
