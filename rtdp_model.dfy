/** Real-Time Dynamic Programming, as values: the exploration schedule, the
    lazily filled value table, the Bellman backup, the epsilon-greedy choice
    and the episode loop, each a function of the table and generator state it
    starts from. The class in rtdp_planner.dfy updates its fields in place and
    is proved to end in the state these functions compute. */
module RtdpModel {
  import opened Environment
  import opened ArgMax

  /** LinearDecay: moves from `start` at t <= 0 to `end` at t >= steps. */
  datatype LinearDecay = LinearDecay(start: real, end: real, steps: int)
  {
    function Value(t: int): real
    {
      if t <= 0 then start
      else if t >= steps then end
      else start + (t as real / steps as real) * (end - start)
    }
  }

  /** With a positive step count the value is the linear interpolation
      start + (t / steps) * (end - start) on the whole of [0, steps], the
      clamps included, and it stays constant before 0 and after steps; with
      no positive step count every t > 0 is already at `end`. */
  lemma DecayShape(d: LinearDecay, t: int)
    ensures d.steps > 0 && 0 <= t <= d.steps ==>
              d.Value(t) == d.start + (t as real / d.steps as real) * (d.end - d.start)
    ensures t <= 0 ==> d.Value(t) == d.Value(0)
    ensures d.steps > 0 && d.steps <= t ==> d.Value(t) == d.Value(d.steps)
    ensures d.steps <= 0 < t ==> d.Value(t) == d.end
  {
    if d.steps > 0 && t == d.steps {
      assert t as real / d.steps as real == 1.0;
    }
  }

  /** The fraction t/steps of an interior point lies strictly between 0 and 1. */
  lemma FractionInUnit(t: int, steps: int)
    requires 0 < t < steps
    ensures 0.0 < t as real / steps as real < 1.0
  {
    var f := t as real / steps as real;
    assert f * steps as real == t as real;
  }

  /** Scaling by a factor in [0, 1] stays between 0 and the scaled width. */
  lemma ScaleInUnit(f: real, w: real)
    requires 0.0 <= f <= 1.0
    ensures 0.0 <= w ==> 0.0 <= f * w <= w
    ensures w <= 0.0 ==> w <= f * w <= 0.0
  {
    if 0.0 <= w {
      assert (1.0 - f) * w >= 0.0;
    } else {
      assert (1.0 - f) * w <= 0.0;
    }
  }

  /** Scaling preserves the order of the factors for a non-negative width
      and reverses it for a non-positive one. */
  lemma ScaleMonotone(f1: real, f2: real, w: real)
    requires f1 <= f2
    ensures 0.0 <= w ==> f1 * w <= f2 * w
    ensures w <= 0.0 ==> f2 * w <= f1 * w
  {
    assert (f2 - f1) * w == f2 * w - f1 * w;
  }

  /** Division by a positive step count preserves order. */
  lemma FractionMonotone(t1: int, t2: int, steps: int)
    requires t1 <= t2 && 0 < steps
    ensures t1 as real / steps as real <= t2 as real / steps as real
  {
    var f1, f2 := t1 as real / steps as real, t2 as real / steps as real;
    assert f1 * steps as real == t1 as real;
    assert f2 * steps as real == t2 as real;
    CancelPositive(f1, f2, steps as real);
  }

  /** A positive factor can be cancelled from both sides of an inequality. */
  lemma CancelPositive(a: real, b: real, w: real)
    requires 0.0 < w && a * w <= b * w
    ensures a <= b
  {
    assert (b - a) * w >= 0.0;
  }

  /** Every value lies between `start` and `end`, whatever the step count. */
  lemma DecayBetween(d: LinearDecay, t: int)
    ensures d.start <= d.end ==> d.start <= d.Value(t) <= d.end
    ensures d.end <= d.start ==> d.end <= d.Value(t) <= d.start
  {
    if 0 < t < d.steps {
      FractionInUnit(t, d.steps);
      ScaleInUnit(t as real / d.steps as real, d.end - d.start);
    }
  }

  /** The schedule moves monotonically from `start` towards `end`. */
  lemma DecayMonotone(d: LinearDecay, t1: int, t2: int)
    requires t1 <= t2
    ensures d.start <= d.end ==> d.Value(t1) <= d.Value(t2)
    ensures d.end <= d.start ==> d.Value(t2) <= d.Value(t1)
  {
    DecayBetween(d, t1);
    DecayBetween(d, t2);
    if 0 < t1 && t2 < d.steps {
      FractionMonotone(t1, t2, d.steps);
      ScaleMonotone(t1 as real / d.steps as real, t2 as real / d.steps as real, d.end - d.start);
    }
  }

  datatype RtdpConfig = RtdpConfig(gamma: real, episodes: nat, maxSteps: nat,
                                   epsilonSchedule: Option<LinearDecay>)

  /** The exploration rate of episode `ep`: the schedule's value, or 0 without one. */
  function EpsilonAt(cfg: RtdpConfig, ep: nat): (eps: real)
    ensures cfg.epsilonSchedule.None? ==> eps == 0.0
    ensures cfg.epsilonSchedule.Some? ==> eps == cfg.epsilonSchedule.value.Value(ep)
    ensures cfg.epsilonSchedule.Some? ==>
              var d := cfg.epsilonSchedule.value;
              (d.start <= d.end ==> d.start <= eps <= d.end) &&
              (d.end <= d.start ==> d.end <= eps <= d.start)
  {
    match cfg.epsilonSchedule
    case None => 0.0
    case Some(d) => DecayBetween(d, ep); d.Value(ep)
  }

  // ---------------------------------------------------------------- value table

  /** The value a state receives on first access: the heuristic's, or 0. */
  function Init<S>(h: Option<S -> real>, s: S): real
  {
    if h.Some? then h.value(s) else 0.0
  }

  /** What value(s) returns against table V: the stored entry, or the initial value. */
  function Lookup<S(==)>(V: map<S, real>, h: Option<S -> real>, s: S): real
  {
    if s in V then V[s] else Init(h, s)
  }

  /** V after value(s) has been called for every s in K: absent keys gain
      their initial value, present keys keep theirs. */
  function Warm<S(==)>(V: map<S, real>, h: Option<S -> real>, K: set<S>): (W: map<S, real>)
    ensures W.Keys == V.Keys + K
    ensures forall s :: s in V ==> W[s] == V[s]
    ensures forall s :: s in W && s !in V ==> W[s] == Init(h, s)
  {
    map s | s in V.Keys + K :: Lookup(V, h, s)
  }

  /** Lazy initialisation never changes the answer of a later lookup. */
  lemma WarmLookup<S>(V: map<S, real>, h: Option<S -> real>, K: set<S>, s: S)
    ensures Lookup(Warm(V, h, K), h, s) == Lookup(V, h, s)
  {
  }

  /** Two rounds of lazy initialisation are one round over both key sets. */
  lemma WarmTwice<S>(V: map<S, real>, h: Option<S -> real>, K1: set<S>, K2: set<S>)
    ensures Warm(Warm(V, h, K1), h, K2) == Warm(V, h, K1 + K2)
  {
    var W1, W2 := Warm(Warm(V, h, K1), h, K2), Warm(V, h, K1 + K2);
    assert W1.Keys == W2.Keys;
    forall s | s in W1 ensures W1[s] == W2[s] {
      WarmLookup(V, h, K1, s);
    }
  }

  // ---------------------------------------------------------- Bellman backup

  /** The states reached by a list of transitions. */
  function Successors<S>(ts: seq<Transition<S>>): set<S>
  {
    if ts == [] then {} else Successors(ts[..|ts| - 1]) + {ts[|ts| - 1].next}
  }

  /** The states whose value a backup of s over `acts` looks up. */
  function Reached<S, A, G>(mdp: Mdp<S, A, G>, s: S, acts: seq<A>): set<S>
  {
    if acts == [] then {}
    else Reached(mdp, s, acts[..|acts| - 1]) + Successors(mdp.transitions(s, acts[|acts| - 1]))
  }

  /** One more action adds its successors. */
  lemma ReachedSnoc<S, A, G>(mdp: Mdp<S, A, G>, s: S, acts: seq<A>, i: nat)
    requires i < |acts|
    ensures Reached(mdp, s, acts[..i + 1]) == Reached(mdp, s, acts[..i]) + Successors(mdp.transitions(s, acts[i]))
  {
    assert acts[..i + 1][..i] == acts[..i];
  }

  /** Q(s, a) as the loop accumulates it: the sum of p * (r + gamma * value(next))
      over the transitions, 0 for an empty list. */
  function QSum<S(==)>(ts: seq<Transition<S>>, V: map<S, real>, h: Option<S -> real>,
                       gamma: real): real
  {
    if ts == [] then 0.0
    else
      var t := ts[|ts| - 1];
      QSum(ts[..|ts| - 1], V, h, gamma) + t.probability * (t.reward + gamma * Lookup(V, h, t.next))
  }

  /** Lazy initialisation does not change a Q sum. */
  lemma {:induction false} QSumWarm<S>(ts: seq<Transition<S>>, V: map<S, real>, h: Option<S -> real>,
                                       K: set<S>, gamma: real)
    ensures QSum(ts, Warm(V, h, K), h, gamma) == QSum(ts, V, h, gamma)
  {
    if ts != [] {
      QSumWarm(ts[..|ts| - 1], V, h, K, gamma);
      WarmLookup(V, h, K, ts[|ts| - 1].next);
    }
  }

  /** The Q value of each legal action of s, in the order of actions(s). */
  function QValues<S(==), A, G>(mdp: Mdp<S, A, G>, gamma: real, h: Option<S -> real>,
                                V: map<S, real>, s: S): (qs: seq<real>)
    ensures |qs| == |mdp.actions(s)|
  {
    var acts := mdp.actions(s);
    seq(|acts|, i requires 0 <= i < |acts| => QSum(mdp.transitions(s, acts[i]), V, h, gamma))
  }

  /** One turn of the loop over actions(s): the Q value of action i taken
      against a table warmed by the earlier actions is its Q value against
      the table on entry, and warming its successors extends the reached set
      by that action. */
  lemma ActionTurn<S, A, G>(mdp: Mdp<S, A, G>, gamma: real, h: Option<S -> real>,
                            V: map<S, real>, s: S, i: nat,
                            mid: map<S, real>, q: real, after: map<S, real>)
    requires i < |mdp.actions(s)|
    requires mid == Warm(V, h, Reached(mdp, s, mdp.actions(s)[..i]))
    requires q == QSum(mdp.transitions(s, mdp.actions(s)[i]), mid, h, gamma)
    requires after == Warm(mid, h, Successors(mdp.transitions(s, mdp.actions(s)[i])))
    ensures q == QValues(mdp, gamma, h, V, s)[i]
    ensures after == Warm(V, h, Reached(mdp, s, mdp.actions(s)[..i + 1]))
  {
    var acts := mdp.actions(s);
    var K := Reached(mdp, s, acts[..i]);
    ReachedSnoc(mdp, s, acts, i);
    QSumWarm(mdp.transitions(s, acts[i]), V, h, K, gamma);
    WarmTwice(V, h, K, Successors(mdp.transitions(s, acts[i])));
  }

  /** bellman_backup(s): the new value of s and the new table. */
  function Backup<S(==), A, G>(mdp: Mdp<S, A, G>, gamma: real, h: Option<S -> real>,
                               V: map<S, real>, s: S): (r: (real, map<S, real>))
    ensures r.1.Keys == V.Keys + {s} + (if mdp.actions(s) == [] then {} else Reached(mdp, s, mdp.actions(s)))
  {
    var acts := mdp.actions(s);
    if acts == [] then (0.0, V[s := 0.0])
    else
      var m := Max(QValues(mdp, gamma, h, V, s));
      (m, Warm(V, h, Reached(mdp, s, acts))[s := m])
  }

  /** Which entries a backup of s touches: s receives the backed-up value,
      the other existing entries keep theirs, and the new entries are the
      lazily initialised successors. */
  lemma BackupFrame<S, A, G>(mdp: Mdp<S, A, G>, gamma: real, h: Option<S -> real>,
                             V: map<S, real>, s: S)
    ensures var (v, W) := Backup(mdp, gamma, h, V, s);
            && s in W && W[s] == v
            && V.Keys <= W.Keys
            && (forall k :: k in V && k != s ==> W[k] == V[k])
            && (forall k :: k in W && k !in V && k != s ==> W[k] == Init(h, k))
  {
  }

  /** The backed-up value: 0 without actions, otherwise the largest Q value
      over the legal actions. */
  lemma BackupValue<S, A, G>(mdp: Mdp<S, A, G>, gamma: real, h: Option<S -> real>,
                             V: map<S, real>, s: S)
    ensures var v := Backup(mdp, gamma, h, V, s).0;
            var qs := QValues(mdp, gamma, h, V, s);
            && (mdp.actions(s) == [] ==> v == 0.0)
            && (mdp.actions(s) != [] ==>
                  (forall i :: 0 <= i < |qs| ==> qs[i] <= v) &&
                  (exists i :: 0 <= i < |qs| && qs[i] == v))
  {
    if mdp.actions(s) != [] {
      MaxIsMax(QValues(mdp, gamma, h, V, s));
    }
  }

  /** Once s holds its backed-up value and every successor has an entry,
      a further backup changes nothing. */
  lemma BackupIdempotent<S, A, G>(mdp: Mdp<S, A, G>, gamma: real, h: Option<S -> real>,
                                  V: map<S, real>, s: S)
    requires s in V
    requires mdp.actions(s) != [] ==> Reached(mdp, s, mdp.actions(s)) <= V.Keys
    requires V[s] == Backup(mdp, gamma, h, V, s).0
    ensures Backup(mdp, gamma, h, V, s).1 == V
  {
    var W := Backup(mdp, gamma, h, V, s).1;
    BackupFrame(mdp, gamma, h, V, s);
    assert W.Keys == V.Keys;
  }

  // --------------------------------------------------- epsilon-greedy choice

  /** select_action(s, epsilon): the action, the table after the lookups, and
      the generator state after the draws. */
  function Select<S(==), A, G>(mdp: Mdp<S, A, G>, rng: Rng<G>, gamma: real,
                               h: Option<S -> real>, V: map<S, real>, g: G, s: S,
                               epsilon: real): (r: (A, map<S, real>, G))
    requires mdp.actions(s) != []
    ensures r.1 == Warm(V, h, Reached(mdp, s, mdp.actions(s)))
  {
    var acts := mdp.actions(s);
    var qs := QValues(mdp, gamma, h, V, s);
    var (u, g1) := rng.random(g);
    if u < epsilon then
      var (a, g2) := Choice(rng, g1, acts);
      (a, Warm(V, h, Reached(mdp, s, acts)), g2)
    else
      (acts[FirstArgMax(qs)], Warm(V, h, Reached(mdp, s, acts)), g1)
  }

  /** The choice is always a legal action. When the uniform draw is below
      epsilon it is the generator's choice among all actions; otherwise it is
      the first action whose Q value no other action beats, and the generator
      has made exactly one draw. */
  lemma SelectChoice<S, A, G>(mdp: Mdp<S, A, G>, rng: Rng<G>, gamma: real,
                              h: Option<S -> real>, V: map<S, real>, g: G, s: S,
                              epsilon: real)
    requires mdp.actions(s) != []
    ensures var (a, _, g') := Select(mdp, rng, gamma, h, V, g, s, epsilon);
            var (u, g1) := rng.random(g);
            var qs := QValues(mdp, gamma, h, V, s);
            && (exists i :: 0 <= i < |mdp.actions(s)| && a == mdp.actions(s)[i])
            && (u < epsilon ==> (a, g') == Choice(rng, g1, mdp.actions(s)))
            && (!(u < epsilon) ==>
                  g' == g1 && exists k :: IsFirstArgMax(qs, k) && a == mdp.actions(s)[k])
  {
    var qs := QValues(mdp, gamma, h, V, s);
    FirstArgMaxIsFirst(qs);
  }

  /** With epsilon at most 0 and a draw in [0, 1), the choice is greedy. */
  lemma GreedyWithoutEpsilon<S, A, G>(mdp: Mdp<S, A, G>, rng: Rng<G>, gamma: real,
                                      h: Option<S -> real>, V: map<S, real>, g: G, s: S,
                                      epsilon: real)
    requires mdp.actions(s) != []
    requires epsilon <= 0.0 <= rng.random(g).0
    ensures var a := Select(mdp, rng, gamma, h, V, g, s, epsilon).0;
            exists k :: IsFirstArgMax(QValues(mdp, gamma, h, V, s), k) && a == mdp.actions(s)[k]
  {
    SelectChoice(mdp, rng, gamma, h, V, g, s, epsilon);
  }

  // ---------------------------------------------------------- episodes and run

  /** The planner's mutable state: the value table and the generator. */
  datatype Planner<S, G> = Planner(V: map<S, real>, gen: G)

  datatype EpisodeEnd<S, G> =
    | Finished(p: Planner<S, G>, last: S, steps: nat, total: real)
    | Stuck(p: Planner<S, G>, at: S)

  /** What one step of an episode does from a non-terminal state s: the
      backup of s, then, when s has actions, the choice of an action and the
      sampled outcome. Without actions select_action's assertion fails and the
      planner is blocked after the backup. */
  datatype Move<S, G> =
    | Moved(p: Planner<S, G>, next: S, reward: real)
    | Blocked(p: Planner<S, G>)

  function Advance<S(==), A, G>(mdp: Mdp<S, A, G>, rng: Rng<G>, cfg: RtdpConfig,
                                h: Option<S -> real>, epsilon: real,
                                p: Planner<S, G>, s: S): (m: Move<S, G>)
    ensures m.Blocked? <==> mdp.actions(s) == []
    ensures m.p.V.Keys == p.V.Keys + {s} + (if mdp.actions(s) == [] then {} else Reached(mdp, s, mdp.actions(s)))
  {
    var b := Backup(mdp, cfg.gamma, h, p.V, s);
    if mdp.actions(s) == [] then Blocked(Planner(b.1, p.gen))
    else
      var c := Select(mdp, rng, cfg.gamma, h, b.1, p.gen, s, epsilon);
      var x := mdp.sample(s, c.0, c.2);
      Moved(Planner(c.1, x.2), x.0, x.1)
  }

  /** The step RTDP takes at exploration rate epsilon. The episode and run
      functions below take the step as a parameter, so that their lemmas
      speak only of the properties of the step that `Sound` names. */
  function RtdpStep<S(==), A, G>(mdp: Mdp<S, A, G>, rng: Rng<G>, cfg: RtdpConfig,
                                 h: Option<S -> real>): (real, Planner<S, G>, S) -> Move<S, G>
  {
    (epsilon: real, p: Planner<S, G>, s: S) => Advance(mdp, rng, cfg, h, epsilon, p, s)
  }

  /** `step` agrees with Advance everywhere. The trigger is Advance itself,
      so a proof expands only the steps it names. */
  ghost predicate IsRtdpStep<S(!new), A, G(!new)>(mdp: Mdp<S, A, G>, rng: Rng<G>, cfg: RtdpConfig,
                                                  h: Option<S -> real>,
                                                  step: (real, Planner<S, G>, S) -> Move<S, G>)
  {
    forall epsilon: real, p: Planner<S, G>, s: S {:trigger Advance(mdp, rng, cfg, h, epsilon, p, s)} ::
      step(epsilon, p, s) == Advance(mdp, rng, cfg, h, epsilon, p, s)
  }

  lemma RtdpStepIsRtdpStep<S(!new), A, G(!new)>(mdp: Mdp<S, A, G>, rng: Rng<G>, cfg: RtdpConfig,
                                                h: Option<S -> real>)
    ensures IsRtdpStep(mdp, rng, cfg, h, RtdpStep(mdp, rng, cfg, h))
  {
  }

  /** A step that only adds keys to the table and blocks only where s has no actions. */
  ghost predicate Sound<S(!new), A, G(!new)>(mdp: Mdp<S, A, G>, step: (real, Planner<S, G>, S) -> Move<S, G>)
  {
    forall epsilon: real, p: Planner<S, G>, s: S ::
      p.V.Keys <= step(epsilon, p, s).p.V.Keys &&
      (step(epsilon, p, s).Blocked? ==> mdp.actions(s) == [])
  }

  /** RTDP's step is sound. */
  lemma RtdpStepSound<S(!new), A, G(!new)>(mdp: Mdp<S, A, G>, rng: Rng<G>, cfg: RtdpConfig,
                                           h: Option<S -> real>,
                                           step: (real, Planner<S, G>, S) -> Move<S, G>)
    requires IsRtdpStep(mdp, rng, cfg, h, step)
    ensures Sound(mdp, step)
  {
    forall epsilon: real, p: Planner<S, G>, s: S
      ensures p.V.Keys <= step(epsilon, p, s).p.V.Keys &&
              (step(epsilon, p, s).Blocked? ==> mdp.actions(s) == [])
    {
      var m := Advance(mdp, rng, cfg, h, epsilon, p, s);
    }
  }

  /** The rest of one episode from state s after `steps` steps: while s is not
      terminal and the step cap is not reached, take a step. */
  function Episode<S, A, G>(mdp: Mdp<S, A, G>, cfg: RtdpConfig,
                            step: (real, Planner<S, G>, S) -> Move<S, G>, epsilon: real,
                            p: Planner<S, G>, s: S, steps: nat, total: real): EpisodeEnd<S, G>
    decreases cfg.maxSteps - steps
  {
    if mdp.isTerminal(s) || steps >= cfg.maxSteps then Finished(p, s, steps, total)
    else
      match step(epsilon, p, s)
      case Blocked(p') => Stuck(p', s)
      case Moved(p', next, reward) => Episode(mdp, cfg, step, epsilon, p', next, steps + 1, total + reward)
  }

  /** An episode of a sound step only adds keys to the table. */
  lemma {:induction false} EpisodeKeepsKeys<S(!new), A, G(!new)>(mdp: Mdp<S, A, G>, cfg: RtdpConfig,
                                                      step: (real, Planner<S, G>, S) -> Move<S, G>,
                                                      epsilon: real,
                                                      p: Planner<S, G>, s: S, steps: nat, total: real)
    requires Sound(mdp, step)
    ensures p.V.Keys <= Episode(mdp, cfg, step, epsilon, p, s, steps, total).p.V.Keys
    decreases cfg.maxSteps - steps
  {
    if !(mdp.isTerminal(s) || steps >= cfg.maxSteps) {
      var m := step(epsilon, p, s);
      if m.Moved? {
        EpisodeKeepsKeys(mdp, cfg, step, epsilon, m.p, m.next, steps + 1, total + m.reward);
      }
    }
  }

  /** An episode stops at the step cap or at a terminal state, or is stuck on
      a non-terminal state without actions. */
  lemma {:induction false} EpisodeBounds<S(!new), A, G(!new)>(mdp: Mdp<S, A, G>, cfg: RtdpConfig,
                                                   step: (real, Planner<S, G>, S) -> Move<S, G>,
                                                   epsilon: real,
                                                   p: Planner<S, G>, s: S, steps: nat, total: real)
    requires Sound(mdp, step)
    requires steps <= cfg.maxSteps
    ensures var e := Episode(mdp, cfg, step, epsilon, p, s, steps, total);
            && (e.Finished? ==> steps <= e.steps <= cfg.maxSteps &&
                                (e.steps < cfg.maxSteps ==> mdp.isTerminal(e.last)))
            && (e.Stuck? ==> !mdp.isTerminal(e.at) && mdp.actions(e.at) == [])
    decreases cfg.maxSteps - steps
  {
    if !(mdp.isTerminal(s) || steps >= cfg.maxSteps) {
      var m := step(epsilon, p, s);
      if m.Moved? {
        EpisodeBounds(mdp, cfg, step, epsilon, m.p, m.next, steps + 1, total + m.reward);
      }
    }
  }

  /** The summary each episode reports: its step count and undiscounted reward. */
  datatype Summary = Summary(steps: nat, totalReward: real)

  datatype RunEnd<S, G> =
    | Completed(p: Planner<S, G>, summaries: seq<Summary>)
    | DeadEnd(p: Planner<S, G>, at: S, summaries: seq<Summary>)

  /** The run r, after earlier episodes that reported xs. */
  function Preceded<S, G>(xs: seq<Summary>, r: RunEnd<S, G>): RunEnd<S, G>
  {
    r.(summaries := xs + r.summaries)
  }

  /** Episodes ep, ep + 1, ... of run(), each from the initial state, with
      the table and generator carried over from the episode before. */
  function RunFrom<S, A, G>(mdp: Mdp<S, A, G>, cfg: RtdpConfig,
                            step: (real, Planner<S, G>, S) -> Move<S, G>,
                            p: Planner<S, G>, ep: nat): RunEnd<S, G>
    decreases cfg.episodes - ep
  {
    if ep >= cfg.episodes then Completed(p, [])
    else
      match Episode(mdp, cfg, step, EpsilonAt(cfg, ep), p, mdp.initial, 0, 0.0)
      case Stuck(p', s) => DeadEnd(p', s, [])
      case Finished(p', _, steps, total) => Preceded([Summary(steps, total)], RunFrom(mdp, cfg, step, p', ep + 1))
  }

  lemma PrecededTwice<S, G>(xs: seq<Summary>, ys: seq<Summary>, r: RunEnd<S, G>)
    ensures Preceded(xs, Preceded(ys, r)) == Preceded(xs + ys, r)
  {
    assert xs + (ys + r.summaries) == (xs + ys) + r.summaries;
  }

  /** One turn of run()'s loop over episodes: a stuck episode ends the run
      after the summaries so far, and a finished one adds its summary and
      leaves the remaining episodes to the planner it ends with. */
  lemma RunTurn<S, A, G>(mdp: Mdp<S, A, G>, cfg: RtdpConfig,
                         step: (real, Planner<S, G>, S) -> Move<S, G>,
                         p: Planner<S, G>, ep: nat, summaries: seq<Summary>, e: EpisodeEnd<S, G>)
    requires ep < cfg.episodes
    requires e == Episode(mdp, cfg, step, EpsilonAt(cfg, ep), p, mdp.initial, 0, 0.0)
    ensures e.Stuck? ==> Preceded(summaries, RunFrom(mdp, cfg, step, p, ep)) == DeadEnd(e.p, e.at, summaries)
    ensures e.Finished? ==>
              Preceded(summaries, RunFrom(mdp, cfg, step, p, ep)) ==
              Preceded(summaries + [Summary(e.steps, e.total)], RunFrom(mdp, cfg, step, e.p, ep + 1))
  {
    if e.Stuck? {
      assert summaries + [] == summaries;
    } else {
      PrecededTwice(summaries, [Summary(e.steps, e.total)], RunFrom(mdp, cfg, step, e.p, ep + 1));
    }
  }

  /** After the last episode nothing is left to run. */
  lemma RunDone<S, A, G>(mdp: Mdp<S, A, G>, cfg: RtdpConfig,
                         step: (real, Planner<S, G>, S) -> Move<S, G>,
                         p: Planner<S, G>, summaries: seq<Summary>)
    ensures Preceded(summaries, RunFrom(mdp, cfg, step, p, cfg.episodes)) == Completed(p, summaries)
  {
    assert summaries + [] == summaries;
  }

  /** A completed run reports one summary per episode, none over the step cap;
      the table only gains keys. */
  lemma {:induction false} RunBounds<S(!new), A, G(!new)>(mdp: Mdp<S, A, G>, cfg: RtdpConfig,
                                               step: (real, Planner<S, G>, S) -> Move<S, G>,
                                               p: Planner<S, G>, ep: nat)
    requires Sound(mdp, step)
    requires ep <= cfg.episodes
    ensures var r := RunFrom(mdp, cfg, step, p, ep);
            p.V.Keys <= r.p.V.Keys &&
            (forall i :: 0 <= i < |r.summaries| ==> r.summaries[i].steps <= cfg.maxSteps) &&
            (r.Completed? ==> |r.summaries| == cfg.episodes - ep) &&
            (r.DeadEnd? ==> |r.summaries| < cfg.episodes - ep &&
                            !mdp.isTerminal(r.at) && mdp.actions(r.at) == [])
    decreases cfg.episodes - ep
  {
    if ep < cfg.episodes {
      var e := Episode(mdp, cfg, step, EpsilonAt(cfg, ep), p, mdp.initial, 0, 0.0);
      EpisodeBounds(mdp, cfg, step, EpsilonAt(cfg, ep), p, mdp.initial, 0, 0.0);
      EpisodeKeepsKeys(mdp, cfg, step, EpsilonAt(cfg, ep), p, mdp.initial, 0, 0.0);
      if e.Finished? {
        RunBounds(mdp, cfg, step, e.p, ep + 1);
      }
    }
  }
}
