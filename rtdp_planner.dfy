/** The RTDP planner as an object: the value table V and the generator are
    fields that value, bellman_backup, select_action and run update in place.
    Each method is proved to leave the fields in the state the functions of
    RtdpModel compute from the state it started in. */
module RtdpPlanner {
  import opened Environment
  import opened ArgMax
  import opened RtdpModel

  class Rtdp<S(==, !new), A, G(!new)> {
    const mdp: Mdp<S, A, G>
    const cfg: RtdpConfig
    const rng: Rng<G>
    const heuristic: Option<S -> real>
    var V: map<S, real>
    var gen: G
    /** The step run() takes, as a value the episode functions can name. */
    ghost const step: (real, Planner<S, G>, S) -> Move<S, G>

    /** The ghost step is RTDP's own step, Advance. */
    ghost predicate StepIsAdvance()
    {
      IsRtdpStep(mdp, rng, cfg, heuristic, step)
    }

    /** A planner with an empty table; `gen` is the generator's starting state. */
    constructor(mdp: Mdp<S, A, G>, cfg: RtdpConfig, rng: Rng<G>, gen: G, heuristic: Option<S -> real>)
      ensures this.mdp == mdp && this.cfg == cfg && this.rng == rng && this.heuristic == heuristic
      ensures V == map[] && this.gen == gen
      ensures step == RtdpStep(mdp, rng, cfg, heuristic) && StepIsAdvance()
    {
      this.mdp := mdp;
      this.cfg := cfg;
      this.rng := rng;
      this.heuristic := heuristic;
      V := map[];
      this.gen := gen;
      step := RtdpStep(mdp, rng, cfg, heuristic);
      RtdpStepIsRtdpStep(mdp, rng, cfg, heuristic);
    }

    /** value(s): the stored value of s, created from the heuristic (or 0) on
        first access. */
    method Value(s: S) returns (v: real)
      modifies this`V
      ensures V == Warm(old(V), heuristic, {s})
      ensures v == Lookup(old(V), heuristic, s)
      ensures s in V && v == V[s]
    {
      if s !in V {
        V := V[s := Init(heuristic, s)];
      }
      v := V[s];
    }

    /** The inner loop shared by bellman_backup and select_action: Q(s, a)
        summed over the transitions, looking each successor up. */
    method ActionValue(s: S, a: A) returns (q: real)
      modifies this`V
      ensures q == QSum(mdp.transitions(s, a), old(V), heuristic, cfg.gamma)
      ensures V == Warm(old(V), heuristic, Successors(mdp.transitions(s, a)))
    {
      var ts := mdp.transitions(s, a);
      q := 0.0;
      var j := 0;
      while j < |ts|
        invariant 0 <= j <= |ts|
        invariant V == Warm(old(V), heuristic, Successors(ts[..j]))
        invariant q == QSum(ts[..j], old(V), heuristic, cfg.gamma)
      {
        var t := ts[j];
        ghost var K := Successors(ts[..j]);
        WarmLookup(old(V), heuristic, K, t.next);
        WarmTwice(old(V), heuristic, K, {t.next});
        var v := Value(t.next);
        q := q + t.probability * (t.reward + cfg.gamma * v);
        assert ts[..j + 1][..j] == ts[..j];
        j := j + 1;
      }
      assert ts[..j] == ts;
    }

    /** The Q values of every legal action of s, in order, against the table
        as it was on entry. */
    method ActionValues(s: S) returns (qs: seq<real>)
      modifies this`V
      ensures qs == QValues(mdp, cfg.gamma, heuristic, old(V), s)
      ensures V == Warm(old(V), heuristic, Reached(mdp, s, mdp.actions(s)))
    {
      var acts := mdp.actions(s);
      ghost var all := QValues(mdp, cfg.gamma, heuristic, V, s);
      qs := [];
      var i := 0;
      while i < |acts|
        invariant 0 <= i <= |acts|
        invariant V == Warm(old(V), heuristic, Reached(mdp, s, acts[..i]))
        invariant qs == all[..i]
      {
        ghost var mid := V;
        var q := ActionValue(s, acts[i]);
        ActionTurn(mdp, cfg.gamma, heuristic, old(V), s, i, mid, q, V);
        qs := qs + [q];
        i := i + 1;
      }
      assert acts[..i] == acts;
    }

    /** bellman_backup(s): 0 for a state without actions, otherwise the
        largest Q value, found by a running maximum that starts at minus
        infinity (`None`) and is replaced only by a strictly greater Q. */
    method BellmanBackup(s: S) returns (v: real)
      modifies this`V
      ensures (v, V) == Backup(mdp, cfg.gamma, heuristic, old(V), s)
    {
      var acts := mdp.actions(s);
      if acts == [] {
        V := V[s := 0.0];
        v := 0.0;
      } else {
        ghost var all := QValues(mdp, cfg.gamma, heuristic, V, s);
        var maxQ: Option<real> := None;
        ghost var best := 0;
        var i := 0;
        while i < |acts|
          invariant 0 <= i <= |acts|
          invariant V == Warm(old(V), heuristic, Reached(mdp, s, acts[..i]))
          invariant i == 0 <==> maxQ.None?
          invariant maxQ.Some? ==> best < i && all[best] == maxQ.value
          invariant maxQ.Some? ==> forall j :: 0 <= j < i ==> all[j] <= maxQ.value
        {
          ghost var mid := V;
          var q := ActionValue(s, acts[i]);
          ActionTurn(mdp, cfg.gamma, heuristic, old(V), s, i, mid, q, V);
          if maxQ.None? || q > maxQ.value {
            maxQ, best := Some(q), i;
          }
          i := i + 1;
        }
        assert acts[..i] == acts;
        MaxCharacterised(all, maxQ.value);
        V := V[s := maxQ.value];
        v := maxQ.value;
      }
    }

    /** select_action(s, epsilon): `None` where s has no actions, which is
        where the source's assertion fails; otherwise the epsilon-greedy
        choice, after one uniform draw and, when exploring, one choice draw. */
    method SelectAction(s: S, epsilon: real) returns (a: Option<A>)
      modifies this`V, this`gen
      ensures mdp.actions(s) == [] <==> a.None?
      ensures mdp.actions(s) == [] ==> V == old(V) && gen == old(gen)
      ensures mdp.actions(s) != [] ==>
                (a.value, V, gen) == Select(mdp, rng, cfg.gamma, heuristic, old(V), old(gen), s, epsilon)
    {
      var acts := mdp.actions(s);
      if acts == [] {
        return None;
      }
      var qs := ActionValues(s);
      var (u, g1) := rng.random(gen);
      if u < epsilon {
        var (c, g2) := Choice(rng, g1, acts);
        a, gen := Some(c), g2;
      } else {
        IndexOfMaxIsFirstArgMax(qs);
        a, gen := Some(acts[IndexOf(qs, Max(qs))]), g1;
      }
    }

    /** The body of run()'s step loop: the backup of s, the choice of an
        action, and the sampled successor and reward. */
    method TakeStep(s: S, epsilon: real) returns (m: Move<S, G>)
      modifies this`V, this`gen
      ensures m == Advance(mdp, rng, cfg, heuristic, epsilon, Planner(old(V), old(gen)), s)
      ensures m.p == Planner(V, gen)
    {
      ghost var before := Planner(V, gen);
      var _ := BellmanBackup(s);
      var a := SelectAction(s, epsilon);
      if a.None? {
        return Blocked(Planner(V, gen));
      }
      var (next, reward, g') := mdp.sample(s, a.value, gen);
      gen := g';
      m := Moved(Planner(V, gen), next, reward);
    }

    /** One episode of run() from the initial state at exploration rate
        epsilon: the while loop over steps, accumulating the step count and
        the total reward. */
    method PlayEpisode(epsilon: real) returns (e: EpisodeEnd<S, G>)
      requires StepIsAdvance()
      modifies this`V, this`gen
      ensures e == Episode(mdp, cfg, step, epsilon,
                           Planner(old(V), old(gen)), mdp.initial, 0, 0.0)
      ensures e.p == Planner(V, gen)
    {
      ghost var episode := Episode(mdp, cfg, step, epsilon, Planner(V, gen), mdp.initial, 0, 0.0);
      var s := mdp.initial;
      var steps := 0;
      var total := 0.0;
      while !mdp.isTerminal(s) && steps < cfg.maxSteps
        invariant steps <= cfg.maxSteps
        invariant episode == Episode(mdp, cfg, step, epsilon, Planner(V, gen), s, steps, total)
        decreases cfg.maxSteps - steps
      {
        var m := TakeStep(s, epsilon);
        if m.Blocked? {
          return Stuck(Planner(V, gen), s);
        }
        total := total + m.reward;
        s := m.next;
        steps := steps + 1;
      }
      e := Finished(Planner(V, gen), s, steps, total);
    }

    /** run(): `episodes` episodes from the initial state, each stopping at a
        terminal state or after max_steps steps, with epsilon from the
        schedule. Each episode's step count and total reward is reported in
        the order of the episodes. A state without actions ends the run
        after its backup, as the failing assertion does. */
    method Run() returns (outcome: RunEnd<S, G>)
      requires StepIsAdvance()
      modifies this`V, this`gen
      ensures outcome == RunFrom(mdp, cfg, step, Planner(old(V), old(gen)), 0)
      ensures outcome.p == Planner(V, gen)
      ensures old(V).Keys <= V.Keys
      ensures forall i :: 0 <= i < |outcome.summaries| ==> outcome.summaries[i].steps <= cfg.maxSteps
      ensures outcome.Completed? ==> |outcome.summaries| == cfg.episodes
      ensures outcome.DeadEnd? ==>
                |outcome.summaries| < cfg.episodes &&
                !mdp.isTerminal(outcome.at) && mdp.actions(outcome.at) == []
    {
      ghost var whole := RunFrom(mdp, cfg, step, Planner(V, gen), 0);
      RtdpStepSound(mdp, rng, cfg, heuristic, step);
      RunBounds(mdp, cfg, step, Planner(V, gen), 0);
      var summaries: seq<Summary> := [];
      var stuck: Option<S> := None;
      var ep := 0;
      while ep < cfg.episodes && stuck.None?
        invariant 0 <= ep <= cfg.episodes
        invariant stuck.None? ==> whole == Preceded(summaries, RunFrom(mdp, cfg, step, Planner(V, gen), ep))
        invariant stuck.Some? ==> whole == DeadEnd(Planner(V, gen), stuck.value, summaries)
        decreases cfg.episodes - ep, if stuck.None? then 1 else 0
      {
        ghost var before := Planner(V, gen);
        var epsilon := if cfg.epsilonSchedule.Some? then cfg.epsilonSchedule.value.Value(ep) else 0.0;
        var e := PlayEpisode(epsilon);
        RunTurn(mdp, cfg, step, before, ep, summaries, e);
        if e.Stuck? {
          stuck := Some(e.at);
        } else {
          summaries := summaries + [Summary(e.steps, e.total)];
          ep := ep + 1;
        }
      }
      if stuck.None? {
        RunDone(mdp, cfg, step, Planner(V, gen), summaries);
      }
      outcome := if stuck.Some? then DeadEnd(Planner(V, gen), stuck.value, summaries)
                 else Completed(Planner(V, gen), summaries);
    }
  }
}
