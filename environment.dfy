/** The Markov decision process and the random generator that both planners
    consume. Neither is implemented by the planners: the MDP supplies legal
    actions, a terminal test, the transition distribution, an initial state and
    a sampler, and the generator is an abstract state `G` that each draw turns
    into a successor state, so that a sequence of draws is explicit. */
module Environment {

  datatype Option<+T> = None | Some(value: T)

  /** One outcome of taking an action: its probability, its reward and the state reached. */
  datatype Transition<S> = Transition(probability: real, reward: real, next: S)

  /** The MDP interface. `sample` stands for sample_next_state_and_reward:
      it draws one successor and its reward, consuming generator state. */
  datatype Mdp<!S, !A, !G> = Mdp(
    actions: S -> seq<A>,
    isTerminal: S -> bool,
    transitions: (S, A) -> seq<Transition<S>>,
    initial: S,
    sample: (S, A, G) -> (S, real, G))

  /** The generator's two draws: `random` a uniform real in [0, 1), `below`
      an index for a list of the given length. */
  datatype Rng<!G> = Rng(random: G -> (real, G), below: (G, nat) -> (nat, G))

  /** rng.choice(xs): one uniformly drawn element of a non-empty list. An
      oracle answer outside the list's bounds is read as index 0, so any
      oracle yields a member of the list. */
  function Choice<A, G>(rng: Rng<G>, g: G, xs: seq<A>): (r: (A, G))
    requires |xs| > 0
    ensures exists k :: 0 <= k < |xs| && r.0 == xs[k]
    ensures r.1 == rng.below(g, |xs|).1
  {
    var (k, g') := rng.below(g, |xs|);
    (if k < |xs| then xs[k] else xs[0], g')
  }
}
