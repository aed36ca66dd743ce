/** Monte Carlo tree search with UCT selection: each of `rollouts`
    iterations selects a path from the root, expands its last node,
    plays a uniformly random rollout from that node's state and
    backpropagates the discounted return along the path; the answer is the
    root's most visited child. */
module MctsPlanner {
  import opened Environment
  import opened ArgMax
  import opened SearchTree

  datatype MctsConfig = MctsConfig(gamma: real, cUct: real, rollouts: nat, maxDepth: nat)

  // ------------------------------------------------------------ selection

  /** The UCT score of a child: its mean return plus c_uct times the
      exploration term, which is sqrt(log(n) / m) applied to the parent's
      visits plus one and the child's visits plus one. The exploration term
      is an oracle (see README). */
  function Uct<S, A>(cfg: MctsConfig, explore: (nat, nat) -> real, parent: Node<S, A>, child: Node<S, A>): real
  {
    Q(child) + cfg.cUct * explore(parent.visits + 1, child.visits + 1)
  }

  /** The UCT scores of node i's children, in the children dict's order. */
  function Scores<S, A>(cfg: MctsConfig, explore: (nat, nat) -> real, nodes: seq<Node<S, A>>, i: nat)
    : (r: seq<real>)
    requires i < |nodes|
    ensures |r| == |nodes[i].children|
  {
    var cs := nodes[i].children;
    seq(|cs|, k requires 0 <= k < |cs| =>
      if cs[k].node < |nodes| then Uct(cfg, explore, nodes[i], nodes[cs[k].node]) else 0.0)
  }

  /** j is the child of node i with the highest UCT score, the first one
      among equals. */
  ghost predicate SelectsChild<S, A>(cfg: MctsConfig, explore: (nat, nat) -> real,
                                     nodes: seq<Node<S, A>>, i: nat, j: nat)
  {
    i < |nodes| &&
    exists k :: IsFirstArgMax(Scores(cfg, explore, nodes, i), k) && nodes[i].children[k].node == j
  }

  /** A walk from the root in which each step moves to the child selected
      by UCT, taking at most max_depth steps. */
  ghost predicate SelectionPrefix<S, A>(cfg: MctsConfig, explore: (nat, nat) -> real,
                                        nodes: seq<Node<S, A>>, path: seq<nat>)
  {
    && 0 < |path| <= cfg.maxDepth + 1 && path[0] == 0
    && (forall m :: 0 <= m < |path| ==> path[m] < |nodes|)
    && (forall m :: 0 < m < |path| ==> SelectsChild(cfg, explore, nodes, path[m - 1], path[m]))
  }

  /** The selection walk: such a walk that stops at a node without children
      or once max_depth steps are taken. */
  ghost predicate IsSelection<S, A>(cfg: MctsConfig, explore: (nat, nat) -> real,
                                    nodes: seq<Node<S, A>>, path: seq<nat>)
  {
    && SelectionPrefix(cfg, explore, nodes, path)
    && (nodes[path[|path| - 1]].children == [] || |path| == cfg.maxDepth + 1)
  }

  /** One more step of the walk, to the child at the first maximal score. */
  lemma SelectionExtend<S, A>(cfg: MctsConfig, explore: (nat, nat) -> real,
                              nodes: seq<Node<S, A>>, path: seq<nat>, k: nat)
    requires WellFormed(nodes) && SelectionPrefix(cfg, explore, nodes, path)
    requires |path| <= cfg.maxDepth
    requires nodes[path[|path| - 1]].children != []
    requires k == FirstArgMax(Scores(cfg, explore, nodes, path[|path| - 1]))
    ensures var i := path[|path| - 1];
            && k < |nodes[i].children|
            && SelectionPrefix(cfg, explore, nodes, path + [nodes[i].children[k].node])
  {
    var i := path[|path| - 1];
    FirstArgMaxIsFirst(Scores(cfg, explore, nodes, i));
    assert ChildLinked(nodes, i, nodes[i].children[k]);
    var next := path + [nodes[i].children[k].node];
    assert SelectsChild(cfg, explore, nodes, i, next[|path|]);
    forall m | 0 < m < |next| ensures SelectsChild(cfg, explore, nodes, next[m - 1], next[m]) {
      if m < |path| {
        assert next[m - 1] == path[m - 1] && next[m] == path[m];
      }
    }
  }

  /** The selection walk is a path of the tree. */
  lemma SelectionIsPath<S, A>(cfg: MctsConfig, explore: (nat, nat) -> real,
                              nodes: seq<Node<S, A>>, path: seq<nat>)
    requires IsSelection(cfg, explore, nodes, path)
    ensures IsPath(nodes, path)
  {
    forall m | 0 < m < |path| ensures IsChild(nodes, path[m - 1], path[m]) {
      assert SelectsChild(cfg, explore, nodes, path[m - 1], path[m]);
    }
  }

  /** A node selects at most one child. */
  lemma SelectsOneChild<S, A>(cfg: MctsConfig, explore: (nat, nat) -> real,
                              nodes: seq<Node<S, A>>, i: nat, j1: nat, j2: nat)
    requires SelectsChild(cfg, explore, nodes, i, j1) && SelectsChild(cfg, explore, nodes, i, j2)
    ensures j1 == j2
  {
    var scores := Scores(cfg, explore, nodes, i);
    var k1 :| IsFirstArgMax(scores, k1) && nodes[i].children[k1].node == j1;
    var k2 :| IsFirstArgMax(scores, k2) && nodes[i].children[k2].node == j2;
    FirstArgMaxUnique(scores, k1, k2);
  }

  /** The selection walk is determined by the tree: two walks agree. */
  lemma SelectionUnique<S, A>(cfg: MctsConfig, explore: (nat, nat) -> real,
                              nodes: seq<Node<S, A>>, p1: seq<nat>, p2: seq<nat>)
    requires IsSelection(cfg, explore, nodes, p1) && IsSelection(cfg, explore, nodes, p2)
    ensures p1 == p2
  {
    SelectionPrefixAgree(cfg, explore, nodes, p1, p2, if |p1| < |p2| then |p1| else |p2|);
    if |p1| < |p2| {
      SelectionContinues(cfg, explore, nodes, p2, |p1|);
    } else if |p2| < |p1| {
      SelectionContinues(cfg, explore, nodes, p1, |p2|);
    }
  }

  /** Two selection walks agree on their first n nodes. */
  lemma {:induction false} SelectionPrefixAgree<S, A>(cfg: MctsConfig, explore: (nat, nat) -> real,
                                                     nodes: seq<Node<S, A>>, p1: seq<nat>, p2: seq<nat>,
                                                     n: nat)
    requires IsSelection(cfg, explore, nodes, p1) && IsSelection(cfg, explore, nodes, p2)
    requires n <= |p1| && n <= |p2|
    ensures p1[..n] == p2[..n]
  {
    if n > 1 {
      SelectionPrefixAgree(cfg, explore, nodes, p1, p2, n - 1);
      assert p1[n - 2] == p2[n - 2] by {
        assert p1[..n - 1][n - 2] == p2[..n - 1][n - 2];
      }
      SelectsOneChild(cfg, explore, nodes, p1[n - 2], p1[n - 1], p2[n - 1]);
      assert p1[..n] == p1[..n - 1] + [p1[n - 1]];
      assert p2[..n] == p2[..n - 1] + [p2[n - 1]];
    }
  }

  /** A node inside a selection walk has children and is within the depth budget. */
  lemma SelectionContinues<S, A>(cfg: MctsConfig, explore: (nat, nat) -> real,
                                 nodes: seq<Node<S, A>>, path: seq<nat>, n: nat)
    requires IsSelection(cfg, explore, nodes, path) && 0 < n < |path|
    ensures nodes[path[n - 1]].children != [] && n < cfg.maxDepth + 1
  {
    assert SelectsChild(cfg, explore, nodes, path[n - 1], path[n]);
  }

  /** The selection walk from node i at the given depth, as a function:
      it stops at a node without children or once max_depth steps are
      taken, and otherwise moves to the child at the first maximal score. */
  function Walk<S, A>(cfg: MctsConfig, explore: (nat, nat) -> real,
                      nodes: seq<Node<S, A>>, i: nat, depth: nat): (w: seq<nat>)
    ensures |w| > 0 && w[0] == i
    decreases cfg.maxDepth - depth
  {
    if i < |nodes| && nodes[i].children != [] && depth < cfg.maxDepth then
      var k := FirstArgMax(Scores(cfg, explore, nodes, i));
      [i] + Walk(cfg, explore, nodes, nodes[i].children[k].node, depth + 1)
    else [i]
  }

  /** The walk from node i at the given depth stays in the arena, moves
      only to selected children, takes at most the remaining depth budget,
      and stops only at a node without children or when the budget is spent. */
  lemma {:induction false} WalkFrom<S, A>(cfg: MctsConfig, explore: (nat, nat) -> real,
                                         nodes: seq<Node<S, A>>, i: nat, depth: nat)
    requires WellFormed(nodes) && i < |nodes| && depth <= cfg.maxDepth
    ensures var w := Walk(cfg, explore, nodes, i, depth);
            && |w| <= cfg.maxDepth - depth + 1
            && (forall m :: 0 <= m < |w| ==> w[m] < |nodes|)
            && (forall m :: 0 < m < |w| ==> SelectsChild(cfg, explore, nodes, w[m - 1], w[m]))
            && (nodes[w[|w| - 1]].children == [] || |w| == cfg.maxDepth - depth + 1)
    decreases cfg.maxDepth - depth
  {
    if nodes[i].children != [] && depth < cfg.maxDepth {
      var scores := Scores(cfg, explore, nodes, i);
      var k := FirstArgMax(scores);
      FirstArgMaxIsFirst(scores);
      assert ChildLinked(nodes, i, nodes[i].children[k]);
      var j := nodes[i].children[k].node;
      WalkFrom(cfg, explore, nodes, j, depth + 1);
      var rest := Walk(cfg, explore, nodes, j, depth + 1);
      var w := Walk(cfg, explore, nodes, i, depth);
      assert w == [i] + rest;
      assert SelectsChild(cfg, explore, nodes, i, j);
      forall m | 0 < m < |w| ensures SelectsChild(cfg, explore, nodes, w[m - 1], w[m]) {
        if m > 1 {
          assert w[m - 1] == rest[m - 2] && w[m] == rest[m - 1];
        }
      }
    }
  }

  /** The walk from the root is the selection walk. */
  lemma WalkIsSelection<S, A>(cfg: MctsConfig, explore: (nat, nat) -> real, nodes: seq<Node<S, A>>)
    requires WellFormed(nodes)
    ensures IsSelection(cfg, explore, nodes, Walk(cfg, explore, nodes, 0, 0))
  {
    WalkFrom(cfg, explore, nodes, 0, 0);
  }

  // ------------------------------------------------------------ rollout

  /** The rewards of one random playout, where it stopped, and the generator after it. */
  datatype Playout<S, G> = Playout(rewards: seq<real>, last: S, gen: G)

  /** A random playout of at most `fuel` steps from s: it stops at a terminal
      state or a state without actions; otherwise it draws a uniform action
      and then a successor and reward. */
  function Play<S, A, G>(mdp: Mdp<S, A, G>, rng: Rng<G>, s: S, g: G, fuel: nat): Playout<S, G>
    decreases fuel
  {
    if fuel == 0 || mdp.isTerminal(s) || mdp.actions(s) == [] then Playout([], s, g)
    else
      var c := Choice(rng, g, mdp.actions(s));
      var x := mdp.sample(s, c.0, c.1);
      var rest := Play(mdp, rng, x.0, x.2, fuel - 1);
      Playout([x.1] + rest.rewards, rest.last, rest.gen)
  }

  /** A playout takes at most `fuel` steps and stops early only at a
      terminal state or a state without actions; from a terminal state it
      takes none. */
  lemma {:induction false} PlayBounds<S, A, G>(mdp: Mdp<S, A, G>, rng: Rng<G>, s: S, g: G, fuel: nat)
    ensures var p := Play(mdp, rng, s, g, fuel);
            && |p.rewards| <= fuel
            && (|p.rewards| < fuel ==> mdp.isTerminal(p.last) || mdp.actions(p.last) == [])
            && (mdp.isTerminal(s) ==> p.rewards == [] && p.last == s && p.gen == g)
    decreases fuel
  {
    if !(fuel == 0 || mdp.isTerminal(s) || mdp.actions(s) == []) {
      var c := Choice(rng, g, mdp.actions(s));
      var x := mdp.sample(s, c.0, c.1);
      PlayBounds(mdp, rng, x.0, x.2, fuel - 1);
    }
  }

  function Pow(x: real, n: nat): real
  {
    if n == 0 then 1.0 else Pow(x, n - 1) * x
  }

  /** The discounted return: reward i weighted by gamma to the power i. */
  function Discounted(rs: seq<real>, gamma: real): real
  {
    if rs == [] then 0.0
    else Discounted(rs[..|rs| - 1], gamma) + Pow(gamma, |rs| - 1) * rs[|rs| - 1]
  }

  /** The return of a playout is its first reward plus gamma times the return of the rest. */
  lemma {:induction false} DiscountedCons(r: real, rest: seq<real>, gamma: real)
    ensures Discounted([r] + rest, gamma) == r + gamma * Discounted(rest, gamma)
    decreases |rest|
  {
    if rest == [] {
      assert [r] + rest == [r] && [r][..0] == [];
      assert Discounted([r], gamma) == Discounted([], gamma) + Pow(gamma, 0) * r;
    } else {
      var init, x := rest[..|rest| - 1], rest[|rest| - 1];
      var n := |rest|;
      DiscountedCons(r, init, gamma);
      var whole := [r] + rest;
      assert |whole| == n + 1 && whole[..n] == [r] + init && whole[n] == x;
      ConsStep(r, x, gamma, Discounted(init, gamma), Pow(gamma, n - 1),
               Pow(gamma, n), Discounted([r] + init, gamma),
               Discounted(whole, gamma), Discounted(rest, gamma));
    }
  }

  /** The arithmetic of one step of DiscountedCons, over plain reals. */
  lemma ConsStep(r: real, x: real, gamma: real, d: real, p: real,
                 pn: real, e: real, dw: real, dr: real)
    requires e == r + gamma * d && pn == p * gamma
    requires dw == e + pn * x && dr == d + p * x
    ensures dw == r + gamma * dr
  {
    assert gamma * dr == gamma * d + (p * gamma) * x;
  }

  /** The rollout's accumulators after one more reward: the total gains
      the reward at the current discount, and the discount one more factor
      of gamma. */
  lemma DiscountStep(rs: seq<real>, total: real, discount: real, r: real, gamma: real)
    requires total == Discounted(rs, gamma) && discount == Pow(gamma, |rs|)
    ensures total + discount * r == Discounted(rs + [r], gamma)
    ensures discount * gamma == Pow(gamma, |rs + [r]|)
  {
    var xs := rs + [r];
    assert xs[..|xs| - 1] == rs && xs[|xs| - 1] == r;
  }

  /** The rollout loop's state part way: the rewards so far and the
      playout still to come from `state` make up the whole playout, the
      total is their discounted sum and the discount is the next power of
      gamma. */
  ghost predicate RolloutInv<S, A, G>(mdp: Mdp<S, A, G>, rng: Rng<G>, gamma: real, fuel: nat,
                                      whole: Playout<S, G>, sofar: seq<real>, state: S, g: G,
                                      total: real, discount: real)
  {
    && total == Discounted(sofar, gamma) && discount == Pow(gamma, |sofar|)
    && whole.rewards == sofar + Play(mdp, rng, state, g, fuel).rewards
    && whole.gen == Play(mdp, rng, state, g, fuel).gen
  }

  /** One more step of the rollout loop keeps its state consistent. */
  lemma RolloutInvStep<S, A, G>(mdp: Mdp<S, A, G>, rng: Rng<G>, gamma: real, fuel: nat,
                                whole: Playout<S, G>, sofar: seq<real>, state: S, g: G,
                                total: real, discount: real)
    requires RolloutInv(mdp, rng, gamma, fuel, whole, sofar, state, g, total, discount)
    requires fuel > 0 && !mdp.isTerminal(state) && mdp.actions(state) != []
    ensures var c := Choice(rng, g, mdp.actions(state));
            var x := mdp.sample(state, c.0, c.1);
            RolloutInv(mdp, rng, gamma, fuel - 1, whole, sofar + [x.1], x.0, x.2,
                       total + discount * x.1, discount * gamma)
  {
    var c := Choice(rng, g, mdp.actions(state));
    var x := mdp.sample(state, c.0, c.1);
    DiscountStep(sofar, total, discount, x.1, gamma);
    var rest := Play(mdp, rng, x.0, x.2, fuel - 1);
    assert Play(mdp, rng, state, g, fuel).rewards == [x.1] + rest.rewards;
    assert whole.rewards == (sofar + [x.1]) + rest.rewards;
  }

  /** When the rollout loop stops, the total is the whole playout's return. */
  lemma RolloutInvEnd<S, A, G>(mdp: Mdp<S, A, G>, rng: Rng<G>, gamma: real, fuel: nat,
                               whole: Playout<S, G>, sofar: seq<real>, state: S, g: G,
                               total: real, discount: real)
    requires RolloutInv(mdp, rng, gamma, fuel, whole, sofar, state, g, total, discount)
    requires fuel == 0 || mdp.isTerminal(state) || mdp.actions(state) == []
    ensures total == Discounted(whole.rewards, gamma) && g == whole.gen
  {
    assert sofar + [] == sofar;
  }

  // ------------------------------------------------------------ the answer

  /** search()'s result: an action, or the RuntimeError raised for a root
      without children and without actions. */
  datatype Decision<A> = Decided(action: A) | NoAction

  /** The visit counts of the children in cs. */
  function VisitCounts<S, A>(nodes: seq<Node<S, A>>, cs: seq<Edge<A>>): (r: seq<real>)
    ensures |r| == |cs|
  {
    seq(|cs|, k requires 0 <= k < |cs| => if cs[k].node < |nodes| then nodes[cs[k].node].visits as real else 0.0)
  }

  /** The root's most visited child, the first among equals; the first legal
      action when the root has no children; no action when there is none. */
  function Decide<S, A, G>(mdp: Mdp<S, A, G>, nodes: seq<Node<S, A>>): Decision<A>
    requires |nodes| > 0
  {
    var cs := nodes[0].children;
    if cs != [] then Decided(cs[FirstArgMax(VisitCounts(nodes, cs))].action)
    else if mdp.actions(nodes[0].state) == [] then NoAction
    else Decided(mdp.actions(nodes[0].state)[0])
  }

  /** In a legal tree the decision is a legal action of the root state,
      there is none exactly when the root state has no actions, and a
      decision among children is a child with the most visits that no
      earlier child matches. */
  lemma DecideLegal<S, A, G>(mdp: Mdp<S, A, G>, nodes: seq<Node<S, A>>)
    requires |nodes| > 0 && Legal(mdp, nodes)
    ensures var d := Decide(mdp, nodes);
            && (d.NoAction? <==> mdp.actions(nodes[0].state) == [])
            && (d.Decided? ==> d.action in mdp.actions(nodes[0].state))
            && (nodes[0].children != [] ==>
                  exists k :: IsFirstArgMax(VisitCounts(nodes, nodes[0].children), k) &&
                              d.action == nodes[0].children[k].action)
  {
    var cs := nodes[0].children;
    if cs != [] {
      var vs := VisitCounts(nodes, cs);
      FirstArgMaxIsFirst(vs);
      assert cs[FirstArgMax(vs)].action in mdp.actions(nodes[0].state);
    }
  }

  // ------------------------------------------------------------ one search, as functions

  /** One iteration on a tree and a generator state: the selection walk,
      the expansion of its last node unless that node's state is terminal,
      a playout from that state with the generator left by the expansion,
      and the playout's return added along the walk. (The walk of a
      well-formed tree ends inside the arena, by WalkFrom; the first branch
      only makes the function total.) */
  function IterateTree<S, A(==), G>(mdp: Mdp<S, A, G>, rng: Rng<G>, cfg: MctsConfig,
                                    explore: (nat, nat) -> real, nodes: seq<Node<S, A>>, g: G)
    : (seq<Node<S, A>>, G)
  {
    var path := Walk(cfg, explore, nodes, 0, 0);
    var leaf := path[|path| - 1];
    if leaf >= |nodes| then (nodes, g)
    else
      var s := nodes[leaf].state;
      var grown := if mdp.isTerminal(s) then (nodes, g) else Grow(mdp, nodes, leaf, mdp.actions(s), g);
      var p := Play(mdp, rng, s, grown.1, cfg.maxDepth);
      (Bumped(grown.0, path, Discounted(p.rewards, cfg.gamma)), p.gen)
  }

  /** An iteration keeps the invariants and the root's state, visits the
      root once more, and leaves every node and child in place. */
  lemma IterationKeeps<S, A, G>(mdp: Mdp<S, A, G>, rng: Rng<G>, cfg: MctsConfig,
                                    explore: (nat, nat) -> real, nodes: seq<Node<S, A>>, g: G)
    requires Consistent(mdp, nodes)
    ensures var r := IterateTree(mdp, rng, cfg, explore, nodes, g).0;
            && Consistent(mdp, r) && Outgrows(nodes, r)
            && r[0].state == nodes[0].state && r[0].visits == nodes[0].visits + 1
  {
    var path := Walk(cfg, explore, nodes, 0, 0);
    WalkIsSelection(cfg, explore, nodes);
    SelectionIsPath(cfg, explore, nodes, path);
    var leaf := path[|path| - 1];
    var s := nodes[leaf].state;
    var grown := if mdp.isTerminal(s) then (nodes, g) else Grow(mdp, nodes, leaf, mdp.actions(s), g);
    if mdp.isTerminal(s) {
      forall i | 0 <= i < |nodes| ensures nodes[i].children[..|nodes[i].children|] == nodes[i].children {
      }
    } else {
      Expanded(mdp, nodes, leaf, path, g);
    }
    var p := Play(mdp, rng, s, grown.1, cfg.maxDepth);
    BackedUp(mdp, nodes, grown.0, path, Discounted(p.rewards, cfg.gamma));
  }

  /** One iteration as a function of the pair of a tree and a generator state. */
  function Iteration<S, A(==), G>(mdp: Mdp<S, A, G>, rng: Rng<G>, cfg: MctsConfig, explore: (nat, nat) -> real)
    : ((seq<Node<S, A>>, G)) -> (seq<Node<S, A>>, G)
  {
    (t: (seq<Node<S, A>>, G)) => IterateTree(mdp, rng, cfg, explore, t.0, t.1)
  }

  /** n applications of `step`, as the search loop applies its iteration. */
  function Repeat<T>(step: T -> T, x: T, n: nat): T
    decreases n
  {
    if n == 0 then x else Repeat(step, step(x), n - 1)
  }

  /** The first of n = m + 1 applications, taken out of Repeat. */
  lemma RepeatStep<T>(step: T -> T, x: T, n: nat, m: nat)
    requires n == m + 1
    ensures Repeat(step, x, n) == Repeat(step, step(x), m)
  {
  }

  /** Expanding the non-terminal last node of a path keeps the invariants
      and the path, and only grows the tree. */
  lemma Expanded<S, A, G>(mdp: Mdp<S, A, G>, nodes: seq<Node<S, A>>, leaf: nat, path: seq<nat>, g: G)
    requires Consistent(mdp, nodes) && IsPath(nodes, path)
    requires leaf < |nodes| && !mdp.isTerminal(nodes[leaf].state)
    ensures var r := Grow(mdp, nodes, leaf, mdp.actions(nodes[leaf].state), g).0;
            Extends(nodes, r) && Consistent(mdp, r) && IsPath(r, path)
  {
    var acts := mdp.actions(nodes[leaf].state);
    GrowExtends(mdp, nodes, leaf, acts, g);
    GrowWellFormed(mdp, nodes, leaf, acts, g);
    GrowLegal(mdp, nodes, leaf, acts, g);
    GrowVisitsBounded(mdp, nodes, leaf, acts, g);
    ExtendsKeepsPath(nodes, Grow(mdp, nodes, leaf, acts, g).0, path);
  }

  // ------------------------------------------------------------ the planner

  class Mcts<S, A(==), G> {
    const mdp: Mdp<S, A, G>
    const cfg: MctsConfig
    const rng: Rng<G>
    /** sqrt(log(n) / m), as an oracle. */
    const explore: (nat, nat) -> real
    var gen: G

    /** A planner; `gen` is the generator's starting state (a generator
        seeded with 0 when none is given). */
    constructor(mdp: Mdp<S, A, G>, cfg: MctsConfig, rng: Rng<G>, explore: (nat, nat) -> real, gen: G)
      ensures this.mdp == mdp && this.cfg == cfg && this.rng == rng && this.explore == explore
      ensures this.gen == gen
    {
      this.mdp := mdp;
      this.cfg := cfg;
      this.rng := rng;
      this.explore := explore;
      this.gen := gen;
    }

    /** The selection step's inner loop: the child with the first highest
        UCT score, found by a running best that starts at minus infinity
        (`None`) and is replaced only by a strictly greater score. */
    method BestChild(tree: Tree<S, A>, i: nat) returns (k: nat)
      requires i < |tree.nodes| && tree.nodes[i].children != []
      requires forall k :: 0 <= k < |tree.nodes[i].children| ==> tree.nodes[i].children[k].node < |tree.nodes|
      ensures k == FirstArgMax(Scores(cfg, explore, tree.nodes, i))
    {
      var nodes := tree.nodes;
      var cs := nodes[i].children;
      ghost var scores := Scores(cfg, explore, nodes, i);
      var best: Option<real> := None;
      k := 0;
      for j := 0 to |cs|
        invariant j == 0 <==> best.None?
        invariant j > 0 ==> k < j && best == Some(scores[k]) && k == FirstArgMax(scores[..j])
      {
        var uct := Uct(cfg, explore, nodes[i], nodes[cs[j].node]);
        assert scores[..j + 1][..j] == scores[..j] && scores[..j + 1][j] == scores[j] == uct;
        if best.None? || uct > best.value {
          best, k := Some(uct), j;
        }
      }
      assert scores[..|cs|] == scores;
    }

    /** The selection step: from the root, descend to the best child while
        the node has children and the depth is below max_depth. */
    method SelectPath(tree: Tree<S, A>) returns (path: seq<nat>)
      requires WellFormed(tree.nodes)
      ensures IsSelection(cfg, explore, tree.nodes, path)
      ensures path == Walk(cfg, explore, tree.nodes, 0, 0)
    {
      var nodes := tree.nodes;
      var node: nat := 0;
      var depth: nat := 0;
      path := [0];
      while nodes[node].children != [] && depth < cfg.maxDepth
        invariant SelectionPrefix(cfg, explore, nodes, path)
        invariant |path| == depth + 1 && path[depth] == node
        decreases cfg.maxDepth - depth
      {
        ChildrenInRange(nodes, node);
        var k := BestChild(tree, node);
        SelectionExtend(cfg, explore, nodes, path, k);
        var child := nodes[node].children[k].node;
        path := path + [child];
        node, depth := child, depth + 1;
      }
      WalkIsSelection(cfg, explore, nodes);
      SelectionUnique(cfg, explore, nodes, path, Walk(cfg, explore, nodes, 0, 0));
    }

    /** The rollout step: at most max_depth uniformly random steps from s,
        stopping at a terminal state or a state without actions, returning
        the discounted sum of the rewards. */
    method Rollout(s: S) returns (ret: real)
      modifies this`gen
      ensures var p := Play(mdp, rng, s, old(gen), cfg.maxDepth);
              ret == Discounted(p.rewards, cfg.gamma) && gen == p.gen
    {
      var g := gen;
      ghost var whole := Play(mdp, rng, s, g, cfg.maxDepth);
      ghost var sofar: seq<real> := [];
      var state := s;
      ret := 0.0;
      var discount := 1.0;
      var i := 0;
      assert [] + whole.rewards == whole.rewards;
      // the source's loop over range(max_depth), with its two breaks in the guard
      while i < cfg.maxDepth && !mdp.isTerminal(state) && mdp.actions(state) != []
        invariant i <= cfg.maxDepth
        invariant RolloutInv(mdp, rng, cfg.gamma, cfg.maxDepth - i, whole, sofar, state, g, ret, discount)
      {
        RolloutInvStep(mdp, rng, cfg.gamma, cfg.maxDepth - i, whole, sofar, state, g, ret, discount);
        var c := Choice(rng, g, mdp.actions(state));
        var x := mdp.sample(state, c.0, c.1);
        ret := ret + discount * x.1;
        discount := discount * cfg.gamma;
        sofar := sofar + [x.1];
        state, g := x.0, x.2;
        i := i + 1;
      }
      RolloutInvEnd(mdp, rng, cfg.gamma, cfg.maxDepth - i, whole, sofar, state, g, ret, discount);
      gen := g;
    }

    /** The choice after the iterations: the child with the most visits,
        by a running best that starts at -1 and is replaced only by strictly
        more visits; failing that the first action; failing that the error. */
    method MostVisited(tree: Tree<S, A>) returns (d: Decision<A>)
      requires |tree.nodes| > 0
      ensures d == Decide(mdp, tree.nodes)
    {
      var nodes := tree.nodes;
      var cs := nodes[0].children;
      ghost var vs := VisitCounts(nodes, cs);
      var bestA: Option<A> := None;
      var bestV: int := -1;
      ghost var k := 0;
      for j := 0 to |cs|
        invariant j == 0 <==> bestA.None?
        invariant j == 0 ==> bestV == -1
        invariant j > 0 ==> k < j && k == FirstArgMax(vs[..j]) &&
                            bestA == Some(cs[k].action) && bestV as real == vs[k]
      {
        var visits := if cs[j].node < |nodes| then nodes[cs[j].node].visits else 0;
        assert vs[..j + 1][..j] == vs[..j];
        if visits > bestV {
          bestV, bestA, k := visits, Some(cs[j].action), j;
        }
      }
      if bestA.Some? {
        assert vs[..|cs|] == vs;
        return Decided(bestA.value);
      }
      var actions := mdp.actions(nodes[0].state);
      if actions == [] {
        return NoAction;
      }
      d := Decided(actions[0]);
    }

    /** search(root_state): `rollouts` iterations on a tree that starts as
        the root alone, then the most visited child of the root. The final
        tree is returned as a ghost value so that its properties can be
        stated. */
    method Search(rootState: S) returns (d: Decision<A>, ghost nodes: seq<Node<S, A>>)
      modifies this`gen
      ensures Consistent(mdp, nodes)
      ensures nodes[0].state == rootState && nodes[0].visits == cfg.rollouts
      ensures d == Decide(mdp, nodes)
      ensures d.NoAction? <==> mdp.actions(rootState) == []
      ensures d.Decided? ==> d.action in mdp.actions(rootState)
      ensures (nodes, gen) == Repeat(Iteration(mdp, rng, cfg, explore), ([Fresh(rootState, None)], old(gen)), cfg.rollouts)
    {
      var tree := new Tree(rootState);
      RootOnly<S, A, G>(mdp, rootState);
      ghost var iteration := Iteration(mdp, rng, cfg, explore);
      ghost var whole := Repeat(iteration, (tree.nodes, gen), cfg.rollouts);
      var left: nat := cfg.rollouts;
      while left > 0
        invariant left <= cfg.rollouts
        invariant Consistent(mdp, tree.nodes)
        invariant Repeat(iteration, (tree.nodes, gen), left) == whole
        invariant tree.nodes[0].state == rootState && tree.nodes[0].visits == cfg.rollouts - left
      {
        ghost var before := (tree.nodes, gen);
        Iterate(tree);
        ghost var n := left;
        left := left - 1;
        RepeatStep(iteration, before, n, left);
      }
      d := MostVisited(tree);
      nodes := tree.nodes;
      DecideLegal(mdp, nodes);
    }

    /** One iteration of the search loop: selection, expansion of a
        non-terminal leaf, a rollout from the leaf's state and
        backpropagation of its return along the selected path. */
    method Iterate(tree: Tree<S, A>)
      requires Consistent(mdp, tree.nodes)
      modifies tree, this`gen
      ensures Consistent(mdp, tree.nodes)
      ensures tree.nodes[0].state == old(tree.nodes[0].state)
      ensures tree.nodes[0].visits == old(tree.nodes[0].visits) + 1
      ensures Outgrows(old(tree.nodes), tree.nodes)
      ensures (tree.nodes, gen) == IterateTree(mdp, rng, cfg, explore, old(tree.nodes), old(gen))
    {
      var path := SelectPath(tree);
      SelectionIsPath(cfg, explore, tree.nodes, path);
      var leaf := path[|path| - 1];
      var state := tree.nodes[leaf].state;
      ghost var before := tree.nodes;
      ExpandLeaf(tree, path);
      var ret := Rollout(state);
      BackedUp(mdp, before, tree.nodes, path, ret);
      tree.Backprop(path, ret);
    }

    /** The expansion step applied to the last node of a path: nothing
        happens at a terminal state, and otherwise the leaf grows its
        missing children. */
    method ExpandLeaf(tree: Tree<S, A>, path: seq<nat>)
      requires Consistent(mdp, tree.nodes) && IsPath(tree.nodes, path)
      modifies tree, this`gen
      ensures var leaf := path[|path| - 1];
              (tree.nodes, gen) ==
                if mdp.isTerminal(old(tree.nodes[leaf].state)) then (old(tree.nodes), old(gen))
                else Grow(mdp, old(tree.nodes), leaf, mdp.actions(old(tree.nodes[leaf].state)), old(gen))
      ensures Consistent(mdp, tree.nodes) && IsPath(tree.nodes, path) && Extends(old(tree.nodes), tree.nodes)
    {
      var leaf := path[|path| - 1];
      if !mdp.isTerminal(tree.nodes[leaf].state) {
        Expanded(mdp, tree.nodes, leaf, path, gen);
        gen := tree.Expand(mdp, leaf, gen);
      }
    }
  }
}
