/** The MCTS search tree, kept as an arena: node i's children are the
    indices of nodes later in the arena, in the insertion order of the
    children dict, each under the action that created it, and every
    non-root node records its parent and that action. The root is node 0. */
module SearchTree {
  import opened Environment

  /** An entry of a children dict, or a parent link: an action and a node index. */
  datatype Edge<A> = Edge(action: A, node: nat)

  datatype Node<S, A> = Node(state: S, parent: Option<Edge<A>>, children: seq<Edge<A>>,
                             visits: nat, valueSum: real)

  /** A node as the constructor builds it: no children, no visits, no value. */
  function Fresh<S, A>(state: S, parent: Option<Edge<A>>): Node<S, A>
  {
    Node(state, parent, [], 0, 0.0)
  }

  /** The mean return through a node, 0 before its first visit. */
  function Q<S, A>(n: Node<S, A>): real
  {
    if n.visits == 0 then 0.0 else n.valueSum / n.visits as real
  }

  /** q is 0 before the first visit and otherwise the mean return. */
  lemma QIsMean<S, A>(n: Node<S, A>)
    ensures n.visits == 0 ==> Q(n) == 0.0
    ensures n.visits > 0 ==> Q(n) * n.visits as real == n.valueSum
  {
  }

  /** The keys of a children dict, in insertion order. */
  function Keys<A>(cs: seq<Edge<A>>): (ks: seq<A>)
    ensures |ks| == |cs| && forall k :: 0 <= k < |cs| ==> ks[k] == cs[k].action
  {
    seq(|cs|, k requires 0 <= k < |cs| => cs[k].action)
  }

  // ------------------------------------------------------------ tree shape

  /** Entry e of node i's children points forward to a node whose parent link is (i, e.action). */
  ghost predicate ChildLinked<S, A>(nodes: seq<Node<S, A>>, i: nat, e: Edge<A>)
  {
    i < e.node < |nodes| && nodes[e.node].parent == Some(Edge(e.action, i))
  }

  /** The arena is a tree rooted at 0: every child entry is linked, every
      non-root node has an earlier parent, and a node's children have
      distinct keys. */
  ghost predicate WellFormed<S, A>(nodes: seq<Node<S, A>>)
  {
    && |nodes| > 0
    && nodes[0].parent.None?
    && (forall i, k :: 0 <= i < |nodes| && 0 <= k < |nodes[i].children| ==>
          ChildLinked(nodes, i, nodes[i].children[k]))
    && (forall j :: 0 < j < |nodes| ==> nodes[j].parent.Some? && nodes[j].parent.value.node < j)
    && (forall i, k1, k2 :: 0 <= i < |nodes| && 0 <= k1 < k2 < |nodes[i].children| ==>
          nodes[i].children[k1].action != nodes[i].children[k2].action)
  }

  /** The three invariants the search keeps. */
  ghost predicate Consistent<S, A, G>(mdp: Mdp<S, A, G>, nodes: seq<Node<S, A>>)
  {
    WellFormed(nodes) && Legal(mdp, nodes) && VisitsBounded(nodes)
  }

  /** Every child key is a legal action of its node's state, and a
      terminal state is never expanded. */
  ghost predicate Legal<S, A, G>(mdp: Mdp<S, A, G>, nodes: seq<Node<S, A>>)
  {
    && (forall i, k :: 0 <= i < |nodes| && 0 <= k < |nodes[i].children| ==>
          nodes[i].children[k].action in mdp.actions(nodes[i].state))
    && (forall i :: 0 <= i < |nodes| && mdp.isTerminal(nodes[i].state) ==> nodes[i].children == [])
  }

  /** The visits of the nodes a list of child entries points to, added up. */
  function ChildVisits<S, A>(nodes: seq<Node<S, A>>, cs: seq<Edge<A>>): nat
  {
    if cs == [] then 0
    else
      var e := cs[|cs| - 1];
      ChildVisits(nodes, cs[..|cs| - 1]) + (if e.node < |nodes| then nodes[e.node].visits else 0)
  }

  /** No node has been visited less often than its children together. */
  ghost predicate VisitsBounded<S, A>(nodes: seq<Node<S, A>>)
  {
    forall i :: 0 <= i < |nodes| ==> ChildVisits(nodes, nodes[i].children) <= nodes[i].visits
  }

  /** Two entries of one children dict never point to the same node. */
  lemma ChildNodesDistinct<S, A>(nodes: seq<Node<S, A>>, i: nat, k1: nat, k2: nat)
    requires WellFormed(nodes) && i < |nodes|
    requires k1 < k2 < |nodes[i].children|
    ensures nodes[i].children[k1].node != nodes[i].children[k2].node
  {
    assert ChildLinked(nodes, i, nodes[i].children[k1]);
    assert ChildLinked(nodes, i, nodes[i].children[k2]);
  }

  /** Each child's visits are at most the sum over its siblings and itself. */
  lemma {:induction false} ChildVisitsAtLeastEach<S, A>(nodes: seq<Node<S, A>>, cs: seq<Edge<A>>, k: nat)
    requires k < |cs| && cs[k].node < |nodes|
    ensures nodes[cs[k].node].visits <= ChildVisits(nodes, cs)
  {
    if k < |cs| - 1 {
      ChildVisitsAtLeastEach(nodes, cs[..|cs| - 1], k);
    }
  }

  /** A child is never visited more often than its parent. */
  lemma ChildVisitsBelowParent<S, A>(nodes: seq<Node<S, A>>, i: nat, k: nat)
    requires WellFormed(nodes) && VisitsBounded(nodes)
    requires i < |nodes| && k < |nodes[i].children|
    ensures nodes[nodes[i].children[k].node].visits <= nodes[i].visits
  {
    assert ChildLinked(nodes, i, nodes[i].children[k]);
    ChildVisitsAtLeastEach(nodes, nodes[i].children, k);
  }

  // ------------------------------------------------------------ paths

  /** j is one of node i's children. */
  ghost predicate IsChild<S, A>(nodes: seq<Node<S, A>>, i: nat, j: nat)
    requires i < |nodes|
  {
    exists k :: 0 <= k < |nodes[i].children| && nodes[i].children[k].node == j
  }

  /** Every child entry of a node of a well-formed tree names a node of the tree. */
  lemma ChildrenInRange<S, A>(nodes: seq<Node<S, A>>, i: nat)
    requires WellFormed(nodes) && i < |nodes|
    ensures forall k :: 0 <= k < |nodes[i].children| ==> nodes[i].children[k].node < |nodes|
  {
    forall k | 0 <= k < |nodes[i].children| ensures nodes[i].children[k].node < |nodes| {
      assert ChildLinked(nodes, i, nodes[i].children[k]);
    }
  }

  /** A path from the root in which each node is a child of the one before. */
  ghost predicate IsPath<S, A>(nodes: seq<Node<S, A>>, path: seq<nat>)
  {
    && |path| > 0 && path[0] == 0
    && (forall m :: 0 <= m < |path| ==> path[m] < |nodes|)
    && (forall m :: 0 < m < |path| ==> IsChild(nodes, path[m - 1], path[m]))
  }

  /** Along a path each node's parent link names the node before it. */
  lemma PathParent<S, A>(nodes: seq<Node<S, A>>, path: seq<nat>, m: nat)
    requires WellFormed(nodes) && IsPath(nodes, path)
    requires 0 < m < |path|
    ensures path[m - 1] < path[m]
    ensures nodes[path[m]].parent.Some? && nodes[path[m]].parent.value.node == path[m - 1]
  {
    var i, j := path[m - 1], path[m];
    assert IsChild(nodes, i, j);
    var k :| 0 <= k < |nodes[i].children| && nodes[i].children[k].node == j;
    assert ChildLinked(nodes, i, nodes[i].children[k]);
  }

  /** A path is strictly increasing, so it visits no node twice. */
  lemma {:induction false} PathIncreasing<S, A>(nodes: seq<Node<S, A>>, path: seq<nat>, m1: nat, m2: nat)
    requires WellFormed(nodes) && IsPath(nodes, path)
    requires m1 < m2 < |path|
    ensures path[m1] < path[m2]
    decreases m2 - m1
  {
    PathParent(nodes, path, m2);
    if m1 < m2 - 1 {
      PathIncreasing(nodes, path, m1, m2 - 1);
    }
  }

  /** A child of i that lies on a path comes right after i on it. */
  lemma ChildOnPath<S, A>(nodes: seq<Node<S, A>>, path: seq<nat>, i: nat, k: nat, m: nat)
    requires WellFormed(nodes) && IsPath(nodes, path)
    requires i < |nodes| && k < |nodes[i].children|
    requires m < |path| && path[m] == nodes[i].children[k].node
    ensures 0 < m && path[m - 1] == i
  {
    assert ChildLinked(nodes, i, nodes[i].children[k]);
    if 0 < m {
      PathParent(nodes, path, m);
    }
  }

  // ------------------------------------------------------------ backpropagation

  /** One visit with return `ret`. */
  function Visit<S, A>(n: Node<S, A>, ret: real): Node<S, A>
  {
    n.(visits := n.visits + 1, valueSum := n.valueSum + ret)
  }

  /** The arena after backpropagating `ret` along `path`: every node on the
      path visited once more, every other node as it was. */
  function Bumped<S, A>(nodes: seq<Node<S, A>>, path: seq<nat>, ret: real): (r: seq<Node<S, A>>)
    ensures |r| == |nodes|
    ensures forall i :: 0 <= i < |nodes| && i in path ==> r[i] == Visit(nodes[i], ret)
    ensures forall i :: 0 <= i < |nodes| && i !in path ==> r[i] == nodes[i]
  {
    seq(|nodes|, i requires 0 <= i < |nodes| => if i in path then Visit(nodes[i], ret) else nodes[i])
  }

  /** How many entries of cs point to a node on the path. */
  function CountOn<A>(cs: seq<Edge<A>>, path: seq<nat>): nat
  {
    if cs == [] then 0
    else CountOn(cs[..|cs| - 1], path) + (if cs[|cs| - 1].node in path then 1 else 0)
  }

  /** Backpropagation adds one visit per child on the path. */
  lemma {:induction false} ChildVisitsBumped<S, A>(nodes: seq<Node<S, A>>, path: seq<nat>, ret: real,
                                                   cs: seq<Edge<A>>)
    requires forall k :: 0 <= k < |cs| ==> cs[k].node < |nodes|
    ensures ChildVisits(Bumped(nodes, path, ret), cs) == ChildVisits(nodes, cs) + CountOn(cs, path)
  {
    if cs != [] {
      var b, init, e := Bumped(nodes, path, ret), cs[..|cs| - 1], cs[|cs| - 1];
      ChildVisitsBumped(nodes, path, ret, init);
      assert ChildVisits(b, cs) == ChildVisits(b, init) + (if e.node < |b| then b[e.node].visits else 0);
      assert b[e.node].visits == nodes[e.node].visits + if e.node in path then 1 else 0;
    }
  }

  /** No entry on the path: the count is 0. */
  lemma {:induction false} CountOnNone<A>(cs: seq<Edge<A>>, path: seq<nat>)
    requires forall k :: 0 <= k < |cs| ==> cs[k].node !in path
    ensures CountOn(cs, path) == 0
  {
    if cs != [] {
      CountOnNone(cs[..|cs| - 1], path);
    }
  }

  /** Entries with pairwise distinct nodes, all on-path ones pointing to j: at most one counts. */
  lemma {:induction false} CountOnAtMostOne<A>(cs: seq<Edge<A>>, path: seq<nat>, j: nat)
    requires forall k1, k2 :: 0 <= k1 < k2 < |cs| ==> cs[k1].node != cs[k2].node
    requires forall k :: 0 <= k < |cs| && cs[k].node in path ==> cs[k].node == j
    ensures CountOn(cs, path) <= 1
  {
    if cs != [] {
      var init := cs[..|cs| - 1];
      if cs[|cs| - 1].node in path {
        assert forall k :: 0 <= k < |init| ==> init[k].node != cs[|cs| - 1].node;
        CountOnNone(init, path);
      } else {
        CountOnAtMostOne(init, path, j);
      }
    }
  }

  /** On a path, at most one child of node i lies, and none when i is off the path. */
  lemma ChildrenOnPath<S, A>(nodes: seq<Node<S, A>>, path: seq<nat>, i: nat)
    requires WellFormed(nodes) && IsPath(nodes, path) && i < |nodes|
    ensures CountOn(nodes[i].children, path) <= if i in path then 1 else 0
  {
    var cs := nodes[i].children;
    forall k1, k2 | 0 <= k1 < k2 < |cs| ensures cs[k1].node != cs[k2].node {
      ChildNodesDistinct(nodes, i, k1, k2);
    }
    if i in path {
      var m :| 0 <= m < |path| && path[m] == i;
      var j := if m + 1 < |path| then path[m + 1] else 0;
      forall k | 0 <= k < |cs| && cs[k].node in path ensures cs[k].node == j {
        var m' :| 0 <= m' < |path| && path[m'] == cs[k].node;
        ChildOnPath(nodes, path, i, k, m');
        if m' - 1 != m {
          if m' - 1 < m {
            PathIncreasing(nodes, path, m' - 1, m);
          } else {
            PathIncreasing(nodes, path, m, m' - 1);
          }
        }
      }
      CountOnAtMostOne(cs, path, j);
    } else {
      forall k | 0 <= k < |cs| ensures cs[k].node !in path {
        if cs[k].node in path {
          var m' :| 0 <= m' < |path| && path[m'] == cs[k].node;
          ChildOnPath(nodes, path, i, k, m');
        }
      }
      CountOnNone(cs, path);
    }
  }

  /** Backpropagation changes no state, parent link or children dict. */
  lemma BumpedKeepsShape<S, A, G>(mdp: Mdp<S, A, G>, nodes: seq<Node<S, A>>, path: seq<nat>, ret: real)
    requires WellFormed(nodes) && Legal(mdp, nodes)
    ensures var r := Bumped(nodes, path, ret);
            WellFormed(r) && Legal(mdp, r)
  {
    var r := Bumped(nodes, path, ret);
    assert forall i :: 0 <= i < |nodes| ==>
      r[i].state == nodes[i].state && r[i].parent == nodes[i].parent && r[i].children == nodes[i].children;
  }

  /** Backpropagation along a path keeps every node's visits at least its
      children's: a node on the path gains one visit and at most one of its
      children is on the path; a node off the path has no child on it. */
  lemma BumpedKeepsVisitsBounded<S, A>(nodes: seq<Node<S, A>>, path: seq<nat>, ret: real)
    requires WellFormed(nodes) && VisitsBounded(nodes) && IsPath(nodes, path)
    ensures VisitsBounded(Bumped(nodes, path, ret))
  {
    var r := Bumped(nodes, path, ret);
    forall i | 0 <= i < |r| ensures ChildVisits(r, r[i].children) <= r[i].visits {
      var cs := nodes[i].children;
      forall k | 0 <= k < |cs| ensures cs[k].node < |nodes| {
        assert ChildLinked(nodes, i, cs[k]);
      }
      ChildVisitsBumped(nodes, path, ret, cs);
      ChildrenOnPath(nodes, path, i);
    }
  }

  // ------------------------------------------------------------ expansion

  /** `young` is `before` with nodes appended and children appended to
      existing dicts; nothing else about an existing node differs. */
  ghost predicate Extends<S, A>(before: seq<Node<S, A>>, young: seq<Node<S, A>>)
  {
    && |before| <= |young|
    && forall i :: 0 <= i < |before| ==>
         && young[i].state == before[i].state && young[i].parent == before[i].parent
         && young[i].visits == before[i].visits && young[i].valueSum == before[i].valueSum
         && |before[i].children| <= |young[i].children|
         && young[i].children[..|before[i].children|] == before[i].children
  }

  lemma ExtendsTransitive<S, A>(n1: seq<Node<S, A>>, n2: seq<Node<S, A>>, n3: seq<Node<S, A>>)
    requires Extends(n1, n2) && Extends(n2, n3)
    ensures Extends(n1, n3)
  {
    forall i | 0 <= i < |n1|
      ensures n3[i].children[..|n1[i].children|] == n1[i].children
    {
      assert n3[i].children[..|n1[i].children|] == n3[i].children[..|n2[i].children|][..|n1[i].children|];
    }
  }

  /** `young` keeps every node of `before` at its index, with its state,
      its parent link and its children in order; only the counters may
      differ. This is the shape a search iteration leaves behind. */
  ghost predicate Outgrows<S, A>(before: seq<Node<S, A>>, young: seq<Node<S, A>>)
  {
    && |before| <= |young|
    && forall i :: 0 <= i < |before| ==>
         && young[i].state == before[i].state && young[i].parent == before[i].parent
         && |before[i].children| <= |young[i].children|
         && young[i].children[..|before[i].children|] == before[i].children
  }

  /** A path stays a path when the tree only grows. */
  lemma ExtendsKeepsPath<S, A>(before: seq<Node<S, A>>, young: seq<Node<S, A>>, path: seq<nat>)
    requires Extends(before, young) && IsPath(before, path)
    ensures IsPath(young, path)
  {
    forall m | 0 < m < |path| ensures IsChild(young, path[m - 1], path[m]) {
      var i, j := path[m - 1], path[m];
      assert IsChild(before, i, j);
      var k :| 0 <= k < |before[i].children| && before[i].children[k].node == j;
      assert young[i].children[..|before[i].children|][k] == young[i].children[k];
    }
  }

  /** Backing a return up along a path of a tree that grew from `before`
      keeps the invariants, keeps the root's state, counts one more
      visit of the root and leaves every node and child of `before` in place. */
  lemma BackedUp<S, A, G>(mdp: Mdp<S, A, G>, before: seq<Node<S, A>>, nodes: seq<Node<S, A>>,
                          path: seq<nat>, ret: real)
    requires Consistent(mdp, nodes) && IsPath(nodes, path)
    requires |before| > 0 && Extends(before, nodes)
    ensures var r := Bumped(nodes, path, ret);
            && Consistent(mdp, r)
            && r[0].state == before[0].state && r[0].visits == before[0].visits + 1
            && Outgrows(before, r)
  {
    BumpedKeepsShape(mdp, nodes, path, ret);
    BumpedKeepsVisitsBounded(nodes, path, ret);
    assert 0 in path;
  }

  /** Node `leaf` gains a child under action a, a fresh node for state `next`
      appended to the arena. */
  function AddChild<S, A>(nodes: seq<Node<S, A>>, leaf: nat, a: A, next: S): (r: seq<Node<S, A>>)
    requires leaf < |nodes|
    ensures |r| == |nodes| + 1 && r[|nodes|] == Fresh(next, Some(Edge(a, leaf)))
    ensures r[leaf].children == nodes[leaf].children + [Edge(a, |nodes|)]
    ensures forall i :: 0 <= i < |nodes| && i != leaf ==> r[i] == nodes[i]
    ensures r[leaf] == nodes[leaf].(children := r[leaf].children)
  {
    var n := nodes[leaf];
    nodes[leaf := n.(children := n.children + [Edge(a, |nodes|)])] + [Fresh(next, Some(Edge(a, leaf)))]
  }

  /** The expansion loop over `acts`: each action not yet among the leaf's
      children gets one sampled successor, in order. */
  function Grow<S, A(==), G>(mdp: Mdp<S, A, G>, nodes: seq<Node<S, A>>, leaf: nat, acts: seq<A>, g: G)
    : (r: (seq<Node<S, A>>, G))
    requires leaf < |nodes|
    decreases |acts|
  {
    if acts == [] then (nodes, g)
    else if acts[0] in Keys(nodes[leaf].children) then Grow(mdp, nodes, leaf, acts[1..], g)
    else
      var (next, _, g') := mdp.sample(nodes[leaf].state, acts[0], g);
      Grow(mdp, AddChild(nodes, leaf, acts[0], next), leaf, acts[1..], g')
  }

  /** An added child keeps the arena an extension of what it was. */
  lemma AddChildExtends<S, A>(nodes: seq<Node<S, A>>, leaf: nat, a: A, next: S)
    requires leaf < |nodes|
    ensures Extends(nodes, AddChild(nodes, leaf, a, next))
  {
    var r := AddChild(nodes, leaf, a, next);
    assert r[leaf].children[..|nodes[leaf].children|] == nodes[leaf].children;
  }

  /** An added child under a new key keeps the tree well formed. */
  lemma AddChildWellFormed<S, A>(nodes: seq<Node<S, A>>, leaf: nat, a: A, next: S)
    requires WellFormed(nodes) && leaf < |nodes|
    requires forall k :: 0 <= k < |nodes[leaf].children| ==> nodes[leaf].children[k].action != a
    ensures WellFormed(AddChild(nodes, leaf, a, next))
  {
    var r := AddChild(nodes, leaf, a, next);
    forall i, k | 0 <= i < |r| && 0 <= k < |r[i].children| ensures ChildLinked(r, i, r[i].children[k]) {
      if i < |nodes| && !(i == leaf && k == |nodes[leaf].children|) {
        assert r[i].children[k] == nodes[i].children[k];
        assert ChildLinked(nodes, i, nodes[i].children[k]);
      }
    }
  }

  /** An added child under a legal action of a non-terminal leaf keeps the tree legal. */
  lemma AddChildLegal<S, A, G>(mdp: Mdp<S, A, G>, nodes: seq<Node<S, A>>, leaf: nat, a: A, next: S)
    requires Legal(mdp, nodes) && leaf < |nodes|
    requires !mdp.isTerminal(nodes[leaf].state) && a in mdp.actions(nodes[leaf].state)
    ensures Legal(mdp, AddChild(nodes, leaf, a, next))
  {
    var r := AddChild(nodes, leaf, a, next);
    forall i, k | 0 <= i < |r| && 0 <= k < |r[i].children|
      ensures r[i].children[k].action in mdp.actions(r[i].state)
    {
      if i < |nodes| && !(i == leaf && k == |nodes[leaf].children|) {
        assert r[i].children[k] == nodes[i].children[k];
      }
    }
  }

  /** An added child has no visits, so every visit bound still holds. */
  lemma AddChildVisitsBounded<S, A>(nodes: seq<Node<S, A>>, leaf: nat, a: A, next: S)
    requires WellFormed(nodes) && VisitsBounded(nodes) && leaf < |nodes|
    ensures VisitsBounded(AddChild(nodes, leaf, a, next))
  {
    var r := AddChild(nodes, leaf, a, next);
    forall i | 0 <= i < |r| ensures ChildVisits(r, r[i].children) <= r[i].visits {
      if i < |nodes| {
        var cs := nodes[i].children;
        forall k | 0 <= k < |cs| ensures cs[k].node < |nodes| {
          assert ChildLinked(nodes, i, cs[k]);
        }
        ChildVisitsFrame(nodes, r, cs);
        if i == leaf {
          assert r[i].children[..|cs|] == cs;
        }
      }
    }
  }

  /** The children's visit sum looks only at the nodes it points to. */
  lemma {:induction false} ChildVisitsFrame<S, A>(n1: seq<Node<S, A>>, n2: seq<Node<S, A>>, cs: seq<Edge<A>>)
    requires |n1| <= |n2| && forall j :: 0 <= j < |n1| ==> n2[j].visits == n1[j].visits
    requires forall k :: 0 <= k < |cs| ==> cs[k].node < |n1|
    ensures ChildVisits(n2, cs) == ChildVisits(n1, cs)
  {
    if cs != [] {
      ChildVisitsFrame(n1, n2, cs[..|cs| - 1]);
    }
  }

  /** Expansion only grows the tree. */
  lemma {:induction false} GrowExtends<S, A, G>(mdp: Mdp<S, A, G>, nodes: seq<Node<S, A>>,
                                               leaf: nat, acts: seq<A>, g: G)
    requires leaf < |nodes|
    ensures Extends(nodes, Grow(mdp, nodes, leaf, acts, g).0)
    decreases |acts|
  {
    if acts == [] {
    } else if acts[0] in Keys(nodes[leaf].children) {
      GrowExtends(mdp, nodes, leaf, acts[1..], g);
    } else {
      var (next, _, g') := mdp.sample(nodes[leaf].state, acts[0], g);
      var n1 := AddChild(nodes, leaf, acts[0], next);
      AddChildExtends(nodes, leaf, acts[0], next);
      GrowExtends(mdp, n1, leaf, acts[1..], g');
      ExtendsTransitive(nodes, n1, Grow(mdp, n1, leaf, acts[1..], g').0);
    }
  }

  /** Expansion keeps the tree well formed. */
  lemma {:induction false} GrowWellFormed<S, A, G>(mdp: Mdp<S, A, G>, nodes: seq<Node<S, A>>,
                                                  leaf: nat, acts: seq<A>, g: G)
    requires WellFormed(nodes) && leaf < |nodes|
    ensures WellFormed(Grow(mdp, nodes, leaf, acts, g).0)
    decreases |acts|
  {
    if acts == [] {
    } else if acts[0] in Keys(nodes[leaf].children) {
      GrowWellFormed(mdp, nodes, leaf, acts[1..], g);
    } else {
      var (next, _, g') := mdp.sample(nodes[leaf].state, acts[0], g);
      AddChildWellFormed(nodes, leaf, acts[0], next);
      GrowWellFormed(mdp, AddChild(nodes, leaf, acts[0], next), leaf, acts[1..], g');
    }
  }

  /** Expanding a non-terminal leaf by its legal actions keeps the tree legal. */
  lemma {:induction false} GrowLegal<S, A, G>(mdp: Mdp<S, A, G>, nodes: seq<Node<S, A>>,
                                             leaf: nat, acts: seq<A>, g: G)
    requires Legal(mdp, nodes) && leaf < |nodes| && !mdp.isTerminal(nodes[leaf].state)
    requires forall k :: 0 <= k < |acts| ==> acts[k] in mdp.actions(nodes[leaf].state)
    ensures Legal(mdp, Grow(mdp, nodes, leaf, acts, g).0)
    decreases |acts|
  {
    if acts == [] {
    } else if acts[0] in Keys(nodes[leaf].children) {
      GrowLegal(mdp, nodes, leaf, acts[1..], g);
    } else {
      var (next, _, g') := mdp.sample(nodes[leaf].state, acts[0], g);
      AddChildLegal(mdp, nodes, leaf, acts[0], next);
      GrowLegal(mdp, AddChild(nodes, leaf, acts[0], next), leaf, acts[1..], g');
    }
  }

  /** Expansion adds only unvisited nodes, so every visit bound still holds. */
  lemma {:induction false} GrowVisitsBounded<S, A, G>(mdp: Mdp<S, A, G>, nodes: seq<Node<S, A>>,
                                                     leaf: nat, acts: seq<A>, g: G)
    requires WellFormed(nodes) && VisitsBounded(nodes) && leaf < |nodes|
    ensures VisitsBounded(Grow(mdp, nodes, leaf, acts, g).0)
    decreases |acts|
  {
    if acts == [] {
    } else if acts[0] in Keys(nodes[leaf].children) {
      GrowVisitsBounded(mdp, nodes, leaf, acts[1..], g);
    } else {
      var (next, _, g') := mdp.sample(nodes[leaf].state, acts[0], g);
      AddChildWellFormed(nodes, leaf, acts[0], next);
      AddChildVisitsBounded(nodes, leaf, acts[0], next);
      GrowVisitsBounded(mdp, AddChild(nodes, leaf, acts[0], next), leaf, acts[1..], g');
    }
  }

  /** After expansion the leaf's keys are its old keys and the expanded
      actions, the nodes added are fresh children of the leaf, and every
      other existing node is untouched. */
  lemma {:induction false} GrowShape<S, A, G>(mdp: Mdp<S, A, G>, nodes: seq<Node<S, A>>,
                                                 leaf: nat, acts: seq<A>, g: G)
    requires leaf < |nodes|
    ensures var r := Grow(mdp, nodes, leaf, acts, g).0;
            && |nodes| <= |r|
            && (forall a :: a in Keys(r[leaf].children) <==> a in Keys(nodes[leaf].children) || a in acts)
            && (forall i :: 0 <= i < |nodes| && i != leaf ==> r[i] == nodes[i])
            && (forall j :: |nodes| <= j < |r| ==>
                  r[j].children == [] && r[j].visits == 0 && r[j].valueSum == 0.0 &&
                  r[j].parent.Some? && r[j].parent.value.node == leaf)
    decreases |acts|
  {
    if acts == [] {
    } else if acts[0] in Keys(nodes[leaf].children) {
      GrowShape(mdp, nodes, leaf, acts[1..], g);
    } else {
      var (next, _, g') := mdp.sample(nodes[leaf].state, acts[0], g);
      var n1 := AddChild(nodes, leaf, acts[0], next);
      GrowShape(mdp, n1, leaf, acts[1..], g');
      assert Keys(n1[leaf].children) == Keys(nodes[leaf].children) + [acts[0]];
    }
  }

  /** A tree holding only its root satisfies every invariant. */
  lemma RootOnly<S, A, G>(mdp: Mdp<S, A, G>, rootState: S)
    ensures var nodes := [Fresh<S, A>(rootState, None)];
            WellFormed(nodes) && Legal(mdp, nodes) && VisitsBounded(nodes) && IsPath(nodes, [0])
  {
  }

  // ------------------------------------------------------------ the tree object

  /** The nodes of one search, updated in place by expansion and backpropagation. */
  class Tree<S, A(==)> {
    var nodes: seq<Node<S, A>>

    /** Node(root_state): the root alone. */
    constructor(rootState: S)
      ensures nodes == [Fresh(rootState, None)]
    {
      nodes := [Fresh(rootState, None)];
    }

    /** The expansion step: every action of the leaf's state not yet among
        its children gets a child at one sampled successor. */
    method Expand<G>(mdp: Mdp<S, A, G>, leaf: nat, gen: G) returns (gen': G)
      requires leaf < |nodes|
      modifies this
      ensures (nodes, gen') == Grow(mdp, old(nodes), leaf, mdp.actions(old(nodes)[leaf].state), gen)
    {
      var state := nodes[leaf].state;
      var acts := mdp.actions(state);
      ghost var whole := Grow(mdp, nodes, leaf, acts, gen);
      gen' := gen;
      for i := 0 to |acts|
        invariant leaf < |nodes| && nodes[leaf].state == state
        invariant Grow(mdp, nodes, leaf, acts[i..], gen') == whole
      {
        assert acts[i..][0] == acts[i] && acts[i..][1..] == acts[i + 1..];
        var a := acts[i];
        if a !in Keys(nodes[leaf].children) {
          var (next, _, g) := mdp.sample(state, a, gen');
          nodes := AddChild(nodes, leaf, a, next);
          gen' := g;
        }
      }
    }

    /** The backpropagation step: every node on the path gains a visit and
        the rollout's return. */
    method Backprop(path: seq<nat>, ret: real)
      requires WellFormed(nodes) && IsPath(nodes, path)
      modifies this
      ensures nodes == Bumped(old(nodes), path, ret)
    {
      ghost var before := nodes;
      for m := 0 to |path|
        invariant |nodes| == |before|
        invariant forall i :: 0 <= i < |nodes| ==>
                    nodes[i] == if i in path[..m] then Visit(before[i], ret) else before[i]
      {
        forall m' | 0 <= m' < m ensures path[m'] != path[m] {
          PathIncreasing(before, path, m', m);
        }
        assert path[..m + 1] == path[..m] + [path[m]];
        nodes := nodes[path[m] := Visit(nodes[path[m]], ret)];
      }
      assert path[..|path|] == path;
    }
  }
}
