# Planners and bandit selectors of RL_Assignments, in Dafny

This project models the decision procedures of two reinforcement-learning
assignments and proves properties of them:

- **MCTS** (`RL_Assignment3/mcts.py`). Monte-Carlo tree search repeats four
  phases `rollouts` times from a root node:
  - selection by UCT;
  - expansion of the leaf with one sampled successor per missing action;
  - a random rollout of at most `max_depth` steps;
  - backpropagation of the discounted return along the selected path.

  It then answers with the root's most visited child. Failing that, it
  answers with the root state's first action. With no actions left it
  raises an error.
- **RTDP** (`RL_Assignment3/rtdp.py`). Real-time dynamic programming keeps a
  value table `V` that `value` fills lazily. `bellman_backup` stores the best
  Q value of a state. `select_action` is epsilon-greedy over the Q values.
  `run` plays `episodes` episodes, each from the initial state, with an
  exploration rate from a `LinearDecay` schedule.
- **Bandit arm selectors** (`RL_Assignment2/algorithms`). `EpsilonGreedy.select_arm`
  explores with probability epsilon. Otherwise it returns arm 0 while nothing
  has been pulled, and the first best estimate after that. `UCB.select_arm`
  returns the first unpulled arm, or else the first arm maximising the
  estimate plus the exploration bonus.

Layout:

| file | what it holds |
|---|---|
| `environment.dfy` | the MDP interface and the random generator, as values (`Environment`) |
| `argmax.dfy` | the first-index argmax all selectors share, and `max`/`list.index` (`ArgMax`) |
| `arms.dfy`, `epsilon_greedy.dfy`, `ucb.dfy` | the two bandit selectors, as pure functions |
| `rtdp_model.dfy` | RTDP as functions of the table and generator (`RtdpModel`) |
| `rtdp_planner.dfy` | the `RTDP` object: a class whose methods update `V` and the generator in place, each proved to end in the state `RtdpModel` computes |
| `mcts_tree.dfy` | the MCTS search tree as an arena of nodes, its invariants, expansion and backpropagation (`SearchTree`) |
| `mcts.dfy` | the `MCTS` object: selection, rollout, the final choice and `search` (`MctsPlanner`) |

The MCTS tree is a sequence of nodes, with the root at index 0.
- Each node's `children` is the children dict in insertion order. Each entry
  is an action and the index of the child node.
- Each non-root node records its parent and the action that created it.
- The `Tree` class holds this sequence as a field. Its methods `Expand` and
  `Backprop` replace the field step by step, as the source mutates its nodes.

The MDP and the generator are abstract:
- The MDP's `actions`, `is_terminal`, `transitions`, `initial_state` and
  `sample_next_state_and_reward` are function-valued fields of `Mdp`.
- The generator is a state `G`. `random` and `choice` are functions from one
  state to a draw and the next state, so the sequence of draws is explicit.

Each planner class keeps the generator state as a field that its methods
update.

## Model

| member | source | states |
|---|---|---|
| Environment.Choice | RL_Assignment3/mcts.py:79 | `rng.choice(xs)` returns an element of the non-empty list and advances the generator by one index draw |
| ArgMax.FirstArgMaxIsFirst | RL_Assignment2/algorithms/epsilon_greedy.py:19 | the strict-`>` scan returns an index holding a maximum, with no maximum before it (numpy's argmax) |
| ArgMax.FirstArgMaxUnique | RL_Assignment2/algorithms/epsilon_greedy.py:19 | the first maximal index is unique, so every argmax rule here has one answer |
| ArgMax.FirstArgMax | RL_Assignment2/algorithms/epsilon_greedy.py:19 | `np.argmax`, the strict-`>` scan from the front: an index in range (what it picks is `FirstArgMaxIsFirst`) |
| ArgMax.Max | RL_Assignment3/rtdp.py:82 | `max(Q_sa)` as the element at the first argmax (its meaning is `MaxIsMax`) |
| ArgMax.MaxIsMax | RL_Assignment3/rtdp.py:56-62 | the running maximum is an upper bound of the list that the list attains |
| ArgMax.MaxCharacterised | RL_Assignment3/rtdp.py:56-64 | any attained upper bound is the maximum, which is how the backup loop's result is recognised |
| ArgMax.IndexOf | RL_Assignment3/rtdp.py:82 | `list.index(v)` returns the first position holding v |
| ArgMax.IndexOfMaxIsFirstArgMax | RL_Assignment3/rtdp.py:82 | `Q_sa.index(max(Q_sa))` is the first-index argmax of the Q values |
| Arms.Sum | RL_Assignment2/algorithms/epsilon_greedy.py:17 | `np.sum(pulls)`, by recursion over the list (its meaning is `SumZeroIff`) |
| Arms.SumZeroIff | RL_Assignment2/algorithms/epsilon_greedy.py:17-18 | `np.sum(pulls) == 0` holds exactly when no arm has been pulled |
| Arms.SumAtLeastLength | RL_Assignment2/algorithms/ucb.py:14-15 | once every arm is pulled, the total is at least the number of arms, so it is positive and the log is defined |
| EpsilonGreedy.SelectArm | RL_Assignment2/algorithms/epsilon_greedy.py:14-19 | the arm is in range, and it is one of three: the random arm when the draw is below epsilon; otherwise arm 0 when nothing has been pulled; otherwise the first best estimate |
| EpsilonGreedy.NeverExploresWithoutEpsilon | RL_Assignment2/algorithms/epsilon_greedy.py:14-19 | with epsilon at most 0 and a non-negative draw the random arm is never used: the answer is the same for every random arm, arm 0 while nothing has been pulled and the first best estimate afterwards |
| Ucb.Unpulled | RL_Assignment2/algorithms/ucb.py:10 | `np.where(pulls == 0)[0]` from a position on, in index order (its meaning is `UnpulledExactly`) |
| Ucb.UnpulledSound | RL_Assignment2/algorithms/ucb.py:10 | every entry of `np.where(pulls == 0)[0]` is an unpulled arm |
| Ucb.UnpulledComplete | RL_Assignment2/algorithms/ucb.py:10 | every unpulled arm is listed |
| Ucb.UnpulledExactly | RL_Assignment2/algorithms/ucb.py:10 | the list holds exactly the unpulled arms |
| Ucb.UnpulledIncreasing | RL_Assignment2/algorithms/ucb.py:10-12 | the list is increasing, so its first entry is the lowest unpulled arm |
| Ucb.Values | RL_Assignment2/algorithms/ucb.py:14-15 | the UCB vector has one value per arm, and the log and the division are only ever applied to positive counts |
| Ucb.SelectArm | RL_Assignment2/algorithms/ucb.py:9-16 | the arm is in range; with an unpulled arm it is the lowest unpulled one; otherwise it is the first index maximising the UCB value |
| RtdpModel.LinearDecay.Value | RL_Assignment3/rtdp.py:15-21 | the schedule, with its two clamps and the interpolation between them (its properties are `DecayShape`, `DecayBetween` and `DecayMonotone`) |
| RtdpModel.DecayShape | RL_Assignment3/rtdp.py:15-21 | with a positive step count the value is `start + (t / steps) * (end - start)` on all of [0, steps], so the formula agrees with both clamps; the value is constant before 0 and after `steps`; with no positive step count every t > 0 is at `end` |
| RtdpModel.DecayBetween | RL_Assignment3/rtdp.py:15-21 | every value lies between `start` and `end` |
| RtdpModel.DecayMonotone | RL_Assignment3/rtdp.py:15-21 | the schedule moves monotonically from `start` towards `end` |
| RtdpModel.EpsilonAt | RL_Assignment3/rtdp.py:90 | an episode's epsilon is 0 without a schedule; with one it is the schedule's value at the episode index, and so lies between the schedule's `start` and `end` |
| RtdpModel.Init | RL_Assignment3/rtdp.py:47 | the value a state gets on first access: the heuristic's, or 0 without one |
| RtdpModel.Lookup | RL_Assignment3/rtdp.py:45-48 | what `value(s)` returns: the stored entry, or the initial value when s has none (`Rtdp.Value` is proved to return it) |
| RtdpModel.Warm | RL_Assignment3/rtdp.py:45-48 | the table after lookups of a set of states: they are added, and existing entries keep their values |
| RtdpModel.WarmLookup | RL_Assignment3/rtdp.py:45-48 | lazy initialisation never changes what a later `value(s)` returns |
| RtdpModel.WarmTwice | RL_Assignment3/rtdp.py:45-48 | two rounds of lookups are one round over the union |
| RtdpModel.ReachedSnoc | RL_Assignment3/rtdp.py:57-60 | one more action adds exactly its successors to the states looked up |
| RtdpModel.QSum | RL_Assignment3/rtdp.py:58-60 | the inner loop's sum of p * (r + gamma * value(next)) over the transitions, in order (`Rtdp.ActionValue` is proved to compute it) |
| RtdpModel.QSumWarm | RL_Assignment3/rtdp.py:58-60 | a Q sum is the same against the table before or after lazy initialisation |
| RtdpModel.QValues | RL_Assignment3/rtdp.py:71-76 | one Q value per legal action, in order |
| RtdpModel.ActionTurn | RL_Assignment3/rtdp.py:57-60 | one pass of the loop over actions computes that action's Q value against the table on entry, and extends the looked-up states by its successors |
| RtdpModel.Backup | RL_Assignment3/rtdp.py:50-65 | the table after a backup has the old keys, s, and the successors that were looked up |
| RtdpModel.BackupFrame | RL_Assignment3/rtdp.py:50-65 | a backup stores its value at s; other existing keys keep their values; each new key holds its initial value |
| RtdpModel.BackupValue | RL_Assignment3/rtdp.py:51-65 | the value is 0 without actions, and otherwise the largest Q value, which some action attains |
| RtdpModel.BackupIdempotent | RL_Assignment3/rtdp.py:56-64 | a backup of a state that already holds its backed-up value, with all successors present, changes nothing |
| RtdpModel.Select | RL_Assignment3/rtdp.py:68-82 | the table after `select_action` holds the successors of every action, looked up lazily |
| RtdpModel.SelectChoice | RL_Assignment3/rtdp.py:79-82 | the action is legal; below epsilon it is the generator's choice; otherwise it is a first best-Q action, taken after exactly one draw |
| RtdpModel.GreedyWithoutEpsilon | RL_Assignment3/rtdp.py:79-82 | with epsilon at most 0 the choice is always a first best-Q action |
| RtdpModel.Advance | RL_Assignment3/rtdp.py:94-100 | a step is blocked exactly when s has no actions; the table gains s and the looked-up successors (the step is the backup, then the selection, then the sample) |
| RtdpModel.RtdpStepSound | RL_Assignment3/rtdp.py:92-104 | that step only adds keys and is blocked only at a state without actions |
| RtdpModel.Episode | RL_Assignment3/rtdp.py:92-104 | the step loop: steps while the state is not terminal and the cap is not reached, counting steps and summing rewards (`Rtdp.PlayEpisode` is proved to compute it; its properties are `EpisodeKeepsKeys` and `EpisodeBounds`) |
| RtdpModel.EpisodeKeepsKeys | RL_Assignment3/rtdp.py:92-104 | an episode never removes a key from `V` |
| RtdpModel.EpisodeBounds | RL_Assignment3/rtdp.py:92-104 | an episode takes at most `max_steps` steps and ends early only at a terminal state; a stuck episode is stuck at a non-terminal state without actions |
| RtdpModel.RunFrom | RL_Assignment3/rtdp.py:86-104 | the episode loop from episode `ep` on, each episode from the initial state at its own epsilon (`Rtdp.Run` is proved to compute it; its properties are `RunTurn` and `RunBounds`) |
| RtdpModel.RunTurn | RL_Assignment3/rtdp.py:86-104 | one pass of the episode loop either ends the run at a stuck state or adds the episode's summary and continues with the table and generator it ends with |
| RtdpModel.RunBounds | RL_Assignment3/rtdp.py:84-106 | a run reports one summary per episode, none over the step cap; `V` only gains keys; a run that dead-ends does so at a non-terminal state without actions |
| RtdpPlanner.Rtdp.constructor | RL_Assignment3/rtdp.py:33-43 | an empty table and the given generator state |
| RtdpPlanner.Rtdp.Value | RL_Assignment3/rtdp.py:45-48 | `value(s)` returns the stored entry or the heuristic (or 0), storing it on first access and changing no other entry |
| RtdpPlanner.Rtdp.ActionValue | RL_Assignment3/rtdp.py:58-60 | the inner loop computes Q(s, a) against the table on entry and looks up exactly the successors |
| RtdpPlanner.Rtdp.ActionValues | RL_Assignment3/rtdp.py:71-76 | `Q_sa` is the list of Q values of the legal actions, in order |
| RtdpPlanner.Rtdp.BellmanBackup | RL_Assignment3/rtdp.py:50-65 | the method ends with the value and table `Backup` describes |
| RtdpPlanner.Rtdp.SelectAction | RL_Assignment3/rtdp.py:68-82 | no action (the failing assertion) exactly when s has none, with nothing changed; otherwise the action, table and generator of `Select` |
| RtdpPlanner.Rtdp.TakeStep | RL_Assignment3/rtdp.py:92-104 | one step of an episode is `Advance` from the planner's state: the backup of s, then the epsilon-greedy selection against the backed-up table, then the sample with the generator the selection leaves |
| RtdpPlanner.Rtdp.PlayEpisode | RL_Assignment3/rtdp.py:87-104 | one episode from the initial state is `Episode` |
| RtdpPlanner.Rtdp.Run | RL_Assignment3/rtdp.py:84-106 | `run()` ends in the state `RunFrom` describes; keys only grow; one summary per episode, none over the step cap |
| SearchTree.Fresh | RL_Assignment3/mcts.py:18-24 | `Node(state, parent)`: no children, 0 visits, 0 value |
| SearchTree.QIsMean | RL_Assignment3/mcts.py:26-28 | q is 0 before the first visit and otherwise the mean return, `q * visits == value_sum`, so no division by zero |
| SearchTree.ChildNodesDistinct | RL_Assignment3/mcts.py:22 | two entries of one children dict never name the same node |
| SearchTree.ChildVisitsAtLeastEach | RL_Assignment3/mcts.py:85-87 | each child's visits are at most the sum over the children |
| SearchTree.ChildVisitsBelowParent | RL_Assignment3/mcts.py:85-87 | a child is never visited more often than its parent |
| SearchTree.ChildrenInRange | RL_Assignment3/mcts.py:53-58 | every child entry of a node names a node of the tree |
| SearchTree.PathParent | RL_Assignment3/mcts.py:46-60 | along a path each node's parent link names the node before it |
| SearchTree.PathIncreasing | RL_Assignment3/mcts.py:46-60 | a path visits no node twice |
| SearchTree.ChildOnPath | RL_Assignment3/mcts.py:46-60 | a child of i that lies on a path comes right after i |
| SearchTree.Bumped | RL_Assignment3/mcts.py:85-87 | backpropagation adds one visit and the return to every node on the path and leaves the others unchanged |
| SearchTree.ChildVisitsBumped | RL_Assignment3/mcts.py:85-87 | the children's visit sum grows by the number of children on the path |
| SearchTree.CountOnNone | RL_Assignment3/mcts.py:85-87 | no child on the path, no added visits |
| SearchTree.CountOnAtMostOne | RL_Assignment3/mcts.py:85-87 | distinct children that all lie at one path position count at most once |
| SearchTree.ChildrenOnPath | RL_Assignment3/mcts.py:85-87 | at most one child of a node lies on a path, and none if the node is off it |
| SearchTree.BumpedKeepsShape | RL_Assignment3/mcts.py:85-87 | backpropagation keeps the tree well formed and its keys legal |
| SearchTree.BumpedKeepsVisitsBounded | RL_Assignment3/mcts.py:85-87 | backpropagation keeps every node's visits at least the sum of its children's |
| SearchTree.ExtendsTransitive | RL_Assignment3/mcts.py:63-67 | growing twice is growing |
| SearchTree.ExtendsKeepsPath | RL_Assignment3/mcts.py:63-67 | a path stays a path when the tree only grows |
| SearchTree.BackedUp | RL_Assignment3/mcts.py:85-87 | after expansion and backpropagation the invariants hold, the root keeps its state and has one more visit, and every earlier node keeps its state, parent and children in order |
| SearchTree.Grow | RL_Assignment3/mcts.py:63-67 | the expansion loop over the actions, one sampled child per action not yet a key (`Tree.Expand` is proved to compute it; its properties are the `Grow…` lemmas) |
| SearchTree.AddChild | RL_Assignment3/mcts.py:67 | `node.children[a] = Node(next_s, parent=(node, a))`: a fresh node appended and linked, nothing else changed |
| SearchTree.AddChildExtends | RL_Assignment3/mcts.py:67 | adding a child only grows the tree |
| SearchTree.AddChildWellFormed | RL_Assignment3/mcts.py:65-67 | adding a child under a missing key keeps the tree well formed |
| SearchTree.AddChildLegal | RL_Assignment3/mcts.py:63-67 | adding a child of a legal action at a non-terminal state keeps every key legal |
| SearchTree.AddChildVisitsBounded | RL_Assignment3/mcts.py:67 | a fresh child with 0 visits keeps the visit bound |
| SearchTree.ChildVisitsFrame | RL_Assignment3/mcts.py:67 | the children's visit sum depends only on the children's visits |
| SearchTree.GrowExtends | RL_Assignment3/mcts.py:63-67 | expansion only adds nodes and children, and never changes existing ones |
| SearchTree.GrowWellFormed | RL_Assignment3/mcts.py:63-67 | expansion keeps the tree well formed, keys distinct |
| SearchTree.GrowLegal | RL_Assignment3/mcts.py:63-67 | expansion of a non-terminal leaf adds only legal actions |
| SearchTree.GrowVisitsBounded | RL_Assignment3/mcts.py:63-67 | expansion keeps the visit bound |
| SearchTree.GrowShape | RL_Assignment3/mcts.py:63-67 | after expansion the leaf's keys are its old keys plus the actions; other nodes are untouched; the new nodes are fresh children of the leaf (no children, 0 visits, 0 value) |
| SearchTree.RootOnly | RL_Assignment3/mcts.py:43 | a tree holding only the fresh root satisfies every invariant |
| SearchTree.Tree.constructor | RL_Assignment3/mcts.py:43 | the root alone, fresh |
| SearchTree.Tree.Expand | RL_Assignment3/mcts.py:63-67 | the expansion loop ends in the tree and generator `Grow` computes |
| SearchTree.Tree.Backprop | RL_Assignment3/mcts.py:85-87 | the backpropagation loop ends in `Bumped` |
| MctsPlanner.Uct | RL_Assignment3/mcts.py:54 | a child's mean return plus c_uct times the exploration term of the parent's and the child's visits plus one |
| MctsPlanner.Scores | RL_Assignment3/mcts.py:53-54 | one UCT score per child, in insertion order |
| MctsPlanner.SelectionExtend | RL_Assignment3/mcts.py:49-60 | descending to the first best-UCT child extends a selection walk by one step |
| MctsPlanner.SelectionIsPath | RL_Assignment3/mcts.py:46-60 | the selection walk starts at the root and each node is a child of the one before |
| MctsPlanner.SelectsOneChild | RL_Assignment3/mcts.py:51-58 | a node selects exactly one child |
| MctsPlanner.SelectionUnique | RL_Assignment3/mcts.py:46-60 | the selection walk is determined by the tree |
| MctsPlanner.SelectionPrefixAgree | RL_Assignment3/mcts.py:46-60 | two selection walks agree on their common prefix |
| MctsPlanner.SelectionContinues | RL_Assignment3/mcts.py:49 | a node inside the walk has children and is within the depth cap |
| MctsPlanner.Walk | RL_Assignment3/mcts.py:46-60 | the selection walk as a function: from node i, stop at a node without children or at the depth cap, else move to the first best-UCT child |
| MctsPlanner.WalkFrom | RL_Assignment3/mcts.py:46-60 | the walk stays in a well-formed tree, moves only to selected children, takes at most the remaining depth, and stops only at a childless node or the depth cap |
| MctsPlanner.WalkIsSelection | RL_Assignment3/mcts.py:46-60 | the walk from the root is the selection walk |
| MctsPlanner.Play | RL_Assignment3/mcts.py:70-80 | the random playout: up to `max_depth` uniform actions and sampled steps, stopping at a terminal state or a state without actions |
| MctsPlanner.PlayBounds | RL_Assignment3/mcts.py:70-82 | a playout has at most `max_depth` rewards and stops early only at a terminal state or an empty action list; from a terminal state it has none |
| MctsPlanner.Discounted | RL_Assignment3/mcts.py:81-82 | the return: reward i weighted by gamma to the power i |
| MctsPlanner.DiscountedCons | RL_Assignment3/mcts.py:81-82 | the return is the first reward plus gamma times the return of the rest |
| MctsPlanner.DiscountStep | RL_Assignment3/mcts.py:81-82 | `total += discount * reward; discount *= gamma` keeps the total the discounted sum and the discount gamma to the number of rewards |
| MctsPlanner.RolloutInvStep | RL_Assignment3/mcts.py:73-82 | one rollout step keeps the accumulators consistent with the whole playout |
| MctsPlanner.RolloutInvEnd | RL_Assignment3/mcts.py:73-82 | when the rollout loop stops, the total is the playout's discounted return |
| MctsPlanner.VisitCounts | RL_Assignment3/mcts.py:91-94 | one visit count per root child, in insertion order |
| MctsPlanner.Decide | RL_Assignment3/mcts.py:89-100 | the answer: the first most visited root child, else the first action, else none (`Mcts.MostVisited` is proved to compute it) |
| MctsPlanner.DecideLegal | RL_Assignment3/mcts.py:89-100 | there is no answer exactly when the root state has no actions; an answer is a legal root action; among children it is a most visited child with no earlier child as visited |
| MctsPlanner.IterateTree | RL_Assignment3/mcts.py:44-87 | one iteration on a tree and generator state: `Walk`, then `Grow` at the walk's last node unless its state is terminal, then `Play` from that state, then `Bumped` along the walk with the playout's return |
| MctsPlanner.IterationKeeps | RL_Assignment3/mcts.py:44-87 | an iteration keeps the invariants and the root's state, adds one root visit, and keeps every node and child in place |
| MctsPlanner.Expanded | RL_Assignment3/mcts.py:63-67 | expansion of a non-terminal leaf keeps the invariants and the path, and only grows the tree |
| MctsPlanner.Iteration | RL_Assignment3/mcts.py:44 | the loop body of `search` as a function of the tree and generator state, which `Repeat` applies `rollouts` times |
| MctsPlanner.Mcts.constructor | RL_Assignment3/mcts.py:32-40 | the configuration and the generator's starting state |
| MctsPlanner.Mcts.BestChild | RL_Assignment3/mcts.py:51-57 | the strict-`>` loop from minus infinity returns the first child with the highest UCT score |
| MctsPlanner.Mcts.SelectPath | RL_Assignment3/mcts.py:46-60 | the selection loop returns the selection walk, which is `Walk` from the root |
| MctsPlanner.Mcts.Rollout | RL_Assignment3/mcts.py:70-82 | the rollout loop returns the discounted return of the playout `Play` describes and leaves the generator where the playout does |
| MctsPlanner.Mcts.MostVisited | RL_Assignment3/mcts.py:89-100 | the final loop and fallback compute `Decide` |
| MctsPlanner.Mcts.Search | RL_Assignment3/mcts.py:42-100 | the final tree and generator are `rollouts` applications of `IterateTree` to the fresh root and the starting generator, so the answer depends only on the root state and the generator state; the tree keeps its invariants and the root has `rollouts` visits; the answer is the most visited root child that no earlier child matches, or else the first action; there is no answer exactly when the root has no actions; an answer is always a legal root action |
| MctsPlanner.Mcts.Iterate | RL_Assignment3/mcts.py:44-87 | one iteration ends in the tree and generator `IterateTree` computes from those it starts with; it keeps the invariants, adds one visit to the root and keeps every node and child in place |
| MctsPlanner.Mcts.ExpandLeaf | RL_Assignment3/mcts.py:63-67 | a terminal leaf gains nothing; a non-terminal one grows as `Grow` computes; the invariants and the path survive |

## Left out

- Floating point: every `float` is a Dafny `real`. `-float("inf")` is an
  absent best (`None`) that any value beats. NaN and rounding are not modelled.
- `math.sqrt(math.log(n) / m)` in the UCT score and `np.sqrt(np.log(total) / pulls)`
  in UCB are the uninterpreted functions `explore` and `bonus`.
  - `explore` is applied to `(parent.visits + 1, child.visits + 1)`.
  - `bonus` only accepts positive arguments, which the model proves they are.
- Random numbers are oracles over an explicit generator state `G`:
  - `random.Random(0)` is the starting state the constructors receive;
  - `rng.random()`, `rng.choice`, `np.random.random` and `np.random.randint`
    are draws or parameters.
- Environment.Choice: an oracle index outside the list is read as index 0.
  The model therefore does not state that the choice is uniform.
- The gridworld MDP and `sample_next_state_and_reward` are not part of this
  model. They are fields of `Mdp`.
- The `print` in `run` is replaced by the list of per-episode summaries,
  each a step count and a total reward, that `Run` returns.
- `assert actions` in `select_action` is modelled as a `None` result.
  In `run` it becomes a run that ends, after the backup, at the state without
  actions (`DeadEnd`).
- The `RuntimeError` of `search` is the result `NoAction`.
- The MCTS `heuristic` field is stored by the source but never read, so the
  model leaves it out.
- EpsilonGreedy.SelectArm and Ucb.SelectArm require at least one arm. With
  no arms, `epsilon_greedy.select_arm` returns 0 when it does not explore
  (the sum of no pulls is 0, line 18) and raises in `randint(0, 0)` when it
  does; `ucb.select_arm` raises in `np.argmax` of an empty array (line 16).
  Neither behaviour is modelled.
- `BaseMABAlgorithm`, which keeps `pulls` and `estimates` up to date, is not
  part of this model. The selectors receive both as sequences and only read
  them. The number of arms is their length.
- Configuration integers (`episodes`, `max_steps`, `rollouts`, `max_depth`) are
  `nat`. A negative value, which makes the source's `range` empty, is not
  modelled. `LinearDecay.steps` stays an `int`.
- Several source loops are split into helper methods, each proved against
  its own specification: `ActionValue`, `ActionValues`, `TakeStep`,
  `PlayEpisode`, `BestChild`, `Iterate` and `ExpandLeaf`.
- The two `break`s of the rollout loop are part of its loop guard.
- MctsPlanner.IterateTree returns its input unchanged when the walk ends
  outside the arena. The walk of a well-formed tree never does (`WalkFrom`),
  and `search` only ever builds well-formed trees.
- `search` also returns the final tree, as a ghost value, so that its
  properties can be stated.
- The selection and the final choice keep a child's index where the source
  keeps its key. The two are interchangeable because a node's keys are
  distinct (`WellFormed`).
- Backpropagation bumps each node on the path once. The source bumps each
  element of the list `path`. The two agree because a path never repeats a
  node (`PathIncreasing`).
- Node parents are indices in the arena, not object references. The
  `(node, action)` pair is an `Edge`.
