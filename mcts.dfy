/**
 * The arena-based search tree of src/mcts.rs: nodes live in one growing
 * vector and refer to each other by index; a node is expanded once, which
 * appends one child per action; simulations descend by PUCT and back values
 * up the path they took; an episode commits one sampled move at a time and
 * turns the committed path into training examples.
 */
module Mcts {
  import opened Wrappers
  import opened Env
  import opened Float32
  import opened Scoring

  /** `NodeRef`: the index of a node in the arena. */
  datatype NodeRef = NodeRef(index: nat)

  /**
   * `Node`: a state, N(s), and the child handles and statistics of its
   * actions, both absent until the node is expanded. The cached reward is
   * `reward` of the state, recomputed wherever it is read.
   */
  datatype Node<S> = Node(
    state: S,
    visitCount: nat,
    actions: Option<ActionMap<NodeRef>>,
    actionStats: Option<ActionMap<Stats>>)
  {
    /** `has_actions`: the statistics have been created. */
    predicate HasActions()
    {
      actionStats.Some?
    }

    /** The PUCT score of each action, with the constant `select_action` uses. */
    function Scores(sqrt: real -> real): (scores: seq<Float>)
      requires HasActions()
      ensures |scores| == actionStats.value.Len()
    {
      PuctScores(actionStats.value.items, visitCount, ExploreFactor, sqrt)
    }

    /** `action_probability`: the visit-count probability of each action. */
    function ActionProbability(temperature: Float, pow: (nat, real) -> real): (pi: ActionMap<Float>)
      requires HasActions()
      ensures pi.Len() == actionStats.value.Len()
    {
      ActionMap(ProbabilityIter(actionStats.value.items, visitCount, temperature, pow))
    }

    /** `Node::quality`: the mean quality of the node's actions. */
    function Quality(): Float
      requires HasActions()
    {
      MeanQuality(actionStats.value.items)
    }

    /**
     * `Node::select_action`: `max_by_key` over the PUCT scores, so the last
     * maximal action, and the child handle recorded for it. Both maps must
     * exist and there must be an action, or the source panics.
     */
    method SelectAction(explore: real, sqrt: real -> real) returns (a: Action, child: NodeRef)
      requires actions.Some? && actionStats.Some? && actionStats.value.Len() > 0
      requires actions.value.Len() == actionStats.value.Len()
      ensures a.index == LastMax(PuctScores(actionStats.value.items, visitCount, explore, sqrt))
      ensures child == actions.value.At(a)
    {
      var stats := actionStats.value;
      ghost var scores := PuctScores(stats.items, visitCount, explore, sqrt);
      var best := 0;
      var bestScore := Puct(stats.At(Action(0)), visitCount, explore, sqrt);
      var k := 1;
      while k < stats.Len()
        invariant 1 <= k <= stats.Len()
        invariant best == LastMax(scores[..k]) && bestScore == scores[best]
      {
        var score := Puct(stats.At(Action(k)), visitCount, explore, sqrt);
        LastMaxStep(scores, k);
        if AtMost(bestScore, score) {
          best, bestScore := k, score;
        }
        k := k + 1;
      }
      assert scores[..k] == scores;
      a := Action(best);
      child := actions.value.At(a);
    }

    /**
     * `Node::sample_action` for the draw `r`: the running sum `p` of the
     * probabilities is built up action by action, and the first action at
     * which `p >= r` holds is taken, or the last action when none is.
     */
    method SampleAction(temperature: Float, r: real, pow: (nat, real) -> real) returns (a: Action, child: NodeRef)
      requires actions.Some? && actionStats.Some? && actionStats.value.Len() > 0
      requires actions.value.Len() == actionStats.value.Len()
      ensures a.index == FindOrLast(ActionProbability(temperature, pow).items, r)
      ensures child == actions.value.At(a)
    {
      var probs := ActionProbability(temperature, pow);
      var k := FindOrLastReached(probs.items, r);
      a := Action(k);
      child := actions.value.At(a);
    }
  }

  /** `Node::new`: the state, not visited, not expanded. */
  function NewNode<S>(state: S): (n: Node<S>)
    ensures n.state == state && n.visitCount == 0 && !n.HasActions() && n.actions.None?
  {
    Node(state, 0, None, None)
  }

  /**
   * The links of node `i` are well formed: child handles and statistics are
   * present together, one per action; the children are the contiguous block
   * after some index above `i`, inside the arena; and the child for
   * `Action(k)` holds `take(Action(k))` of the node's state.
   */
  ghost predicate Linked<S>(ops: StateOps<S>, nodes: seq<Node<S>>, i: nat)
    requires i < |nodes|
  {
    var n := nodes[i];
    (n.actions.Some? <==> n.actionStats.Some?) &&
    (n.actions.Some? ==>
      var c := ops.actionCount(n.state);
      var refs := n.actions.value.items;
      |refs| == c && n.actionStats.value.Len() == c &&
      (c > 0 ==> i < refs[0].index && refs[0].index + c <= |nodes|) &&
      (forall k :: 0 <= k < c ==> refs[k].index == refs[0].index + k) &&
      (forall k :: 0 <= k < c ==> nodes[refs[k].index].state == ops.take(n.state, Action(k))))
  }

  /**
   * The counters of a node are consistent: N(s) is the sum of its actions'
   * counts (0 before expansion), every prior is 1/c, and an action never
   * taken has total value 0.
   */
  ghost predicate Counted<S>(n: Node<S>)
  {
    (n.actionStats.None? ==> n.visitCount == 0) &&
    (n.actionStats.Some? ==>
      var stats := n.actionStats.value.items;
      n.visitCount == SumCounts(stats) &&
      forall k :: 0 <= k < |stats| ==>
        stats[k].prior == 1.0 / (|stats| as real) && (stats[k].count == 0 ==> stats[k].totalValue == 0.0))
  }

  /** Node `i` is linked and counted. */
  ghost predicate NodeOk<S>(ops: StateOps<S>, nodes: seq<Node<S>>, i: nat)
    requires i < |nodes|
  {
    Linked(ops, nodes, i) && Counted(nodes[i])
  }

  /** The arena invariant: a root exists and every node is linked and counted. */
  ghost predicate Arena<S>(ops: StateOps<S>, nodes: seq<Node<S>>)
  {
    |nodes| > 0 && forall i :: 0 <= i < |nodes| ==> NodeOk(ops, nodes, i)
  }

  /** The child handles `init_actions` hands out: the next `c` indices after the arena. */
  function ChildRefs(base: nat, c: nat): (refs: seq<NodeRef>)
    ensures |refs| == c && forall k :: 0 <= k < c ==> refs[k] == NodeRef(base + k)
  {
    seq(c, k requires 0 <= k < c => NodeRef(base + k))
  }

  /** The statistics `init_actions` creates: never taken, no value, prior 1/c. */
  function FreshStats(c: nat): (stats: seq<Stats>)
    ensures |stats| == c && forall k :: 0 <= k < c ==> stats[k] == Stats(0, 0.0, 1.0 / (c as real))
  {
    seq(c, k requires 0 <= k < c => Stats(0, 0.0, 1.0 / (c as real)))
  }

  /** The nodes `add_children` appends: one per action, holding `take` of that action. */
  function ChildNodes<S>(ops: StateOps<S>, state: S): (children: seq<Node<S>>)
    ensures |children| == ops.actionCount(state)
    ensures forall k :: 0 <= k < |children| ==> children[k] == NewNode(ops.take(state, Action(k)))
  {
    seq(ops.actionCount(state), k requires 0 <= k < ops.actionCount(state) => NewNode(ops.take(state, Action(k))))
  }

  /** Node `i` after `init_actions`, when it had no child handles yet. */
  function Initialized<S>(ops: StateOps<S>, n: Node<S>, base: nat): Node<S>
  {
    var c := ops.actionCount(n.state);
    n.(actions := Some(ActionMap(ChildRefs(base, c))),
       actionStats := if n.actionStats.None? then Some(ActionMap(FreshStats(c))) else n.actionStats)
  }

  /** The arena after `open_if_not` expands the unexpanded node `i`. */
  function Expand<S>(ops: StateOps<S>, nodes: seq<Node<S>>, i: nat): seq<Node<S>>
    requires i < |nodes|
  {
    nodes[i := Initialized(ops, nodes[i], |nodes|)] + ChildNodes(ops, nodes[i].state)
  }

  /**
   * Expanding node `i` with c actions grows the arena by exactly c, keeps
   * every other node, gives `Action(k)` the handle old length + k pointing at
   * `take(Action(k))`, creates fresh statistics, and keeps the invariant.
   */
  lemma ExpandEffect<S>(ops: StateOps<S>, nodes: seq<Node<S>>, i: nat)
    requires Arena(ops, nodes) && i < |nodes| && !nodes[i].HasActions()
    ensures var e := Expand(ops, nodes, i);
      var c := ops.actionCount(nodes[i].state);
      Arena(ops, e) && |e| == |nodes| + c &&
      (forall j :: 0 <= j < |nodes| && j != i ==> e[j] == nodes[j]) &&
      e[i].state == nodes[i].state && e[i].visitCount == 0 &&
      e[i].actions == Some(ActionMap(ChildRefs(|nodes|, c))) &&
      e[i].actionStats == Some(ActionMap(FreshStats(c))) &&
      (forall k :: 0 <= k < c ==> e[|nodes| + k] == NewNode(ops.take(nodes[i].state, Action(k))))
  {
    var e := Expand(ops, nodes, i);
    assert NodeOk(ops, nodes, i);
    forall j | 0 <= j < |e|
      ensures NodeOk(ops, e, j)
    {
      ExpandNodeOk(ops, nodes, i, j);
    }
  }

  /** Each node of the expanded arena is linked and counted. */
  lemma ExpandNodeOk<S>(ops: StateOps<S>, nodes: seq<Node<S>>, i: nat, j: nat)
    requires Arena(ops, nodes) && i < |nodes| && !nodes[i].HasActions()
    requires j < |Expand(ops, nodes, i)|
    ensures NodeOk(ops, Expand(ops, nodes, i), j)
  {
    if j == i {
      ExpandedNodeOk(ops, nodes, i);
    } else if j < |nodes| {
      ExpandKeepsNodeOk(ops, nodes, i, j);
    } else {
      ExpandChildOk(ops, nodes, i, j);
    }
  }

  /** The expanded node gets consistent links and fresh, consistent counters. */
  lemma ExpandedNodeOk<S>(ops: StateOps<S>, nodes: seq<Node<S>>, i: nat)
    requires Arena(ops, nodes) && i < |nodes| && !nodes[i].HasActions()
    ensures NodeOk(ops, Expand(ops, nodes, i), i)
  {
    assert NodeOk(ops, nodes, i);
    SumCountsZero(FreshStats(ops.actionCount(nodes[i].state)));
  }

  /** Every other old node keeps its links: its children keep their states. */
  lemma ExpandKeepsNodeOk<S>(ops: StateOps<S>, nodes: seq<Node<S>>, i: nat, j: nat)
    requires Arena(ops, nodes) && i < |nodes| && !nodes[i].HasActions()
    requires j < |nodes| && j != i
    ensures NodeOk(ops, Expand(ops, nodes, i), j)
  {
    var e := Expand(ops, nodes, i);
    assert NodeOk(ops, nodes, j);
    var n := nodes[j];
    if n.actions.Some? {
      var refs := n.actions.value.items;
      forall k | 0 <= k < |refs|
        ensures e[refs[k].index].state == nodes[refs[k].index].state
      {
      }
    }
  }

  /** A new child is a fresh node: nothing to link, nothing counted. */
  lemma ExpandChildOk<S>(ops: StateOps<S>, nodes: seq<Node<S>>, i: nat, j: nat)
    requires i < |nodes| && |nodes| <= j < |Expand(ops, nodes, i)|
    ensures NodeOk(ops, Expand(ops, nodes, i), j)
  {
    assert Expand(ops, nodes, i)[j] == ChildNodes(ops, nodes[i].state)[j - |nodes|];
  }

  /**
   * In a consistent arena, an expanded node with an action never taken has
   * a NaN mean quality: that action's total is 0 and 0/0 is NaN.
   */
  lemma UntakenActionMakesQualityNaN<S>(ops: StateOps<S>, nodes: seq<Node<S>>, i: nat, k: nat)
    requires Arena(ops, nodes) && i < |nodes| && nodes[i].HasActions()
    requires k < nodes[i].actionStats.value.Len() && nodes[i].actionStats.value.items[k].count == 0
    ensures nodes[i].Quality().NaN?
  {
    assert NodeOk(ops, nodes, i);
    MeanQualityCases(nodes[i].actionStats.value.items);
  }

  /** The arena `Nodes`: an append-only vector of nodes over the state operations `ops`. */
  class Nodes<S>
  {
    const ops: StateOps<S>
    var nodes: seq<Node<S>>

    ghost predicate Valid()
      reads this
    {
      Arena(ops, nodes)
    }

    /** `Self(Vec::new())`: an empty arena. */
    constructor Empty(ops: StateOps<S>)
      ensures this.ops == ops && nodes == []
    {
      this.ops := ops;
      nodes := [];
    }

    /** `Nodes::new`: an arena holding only the initial state, and the handle of that root. */
    static method New(ops: StateOps<S>) returns (root: NodeRef, arena: Nodes<S>)
      ensures fresh(arena) && arena.ops == ops && arena.Valid()
      ensures arena.nodes == [NewNode(ops.init)] && root == NodeRef(0)
    {
      arena := new Nodes.Empty(ops);
      root := arena.AddNode(ops.init);
    }

    /** `add_node`: appends a fresh node; its handle is the old length. */
    method AddNode(state: S) returns (r: NodeRef)
      modifies this
      ensures nodes == old(nodes) + [NewNode(state)]
      ensures r == NodeRef(|old(nodes)|)
    {
      var index := |nodes|;
      nodes := nodes + [NewNode(state)];
      r := NodeRef(index);
    }

    /** `is_open`: the node has been expanded. */
    predicate IsOpen(r: NodeRef)
      reads this
      requires r.index < |nodes|
    {
      nodes[r.index].HasActions()
    }

    /**
     * `init_actions`: unless the node already has child handles, hands out
     * the handles after the current last one, one per action, and creates
     * fresh statistics unless some exist.
     */
    method InitActions(r: NodeRef)
      requires 0 < |nodes| && r.index < |nodes|
      modifies this
      ensures old(nodes[r.index].actions.Some?) ==> nodes == old(nodes)
      ensures old(nodes[r.index].actions.None?) ==>
        nodes == old(nodes[r.index := Initialized(ops, nodes[r.index], |nodes|)])
    {
      var node := nodes[r.index];
      if node.actions.None? {
        var c := ops.actionCount(node.state);
        var lastNodeRef := |nodes| - 1;
        var childRefs: seq<NodeRef> := [];
        var stats: seq<Stats> := [];
        var k := 0;
        while k < c
          invariant 0 <= k <= c
          invariant lastNodeRef == |nodes| - 1 + k
          invariant childRefs == ChildRefs(|nodes|, k)
          invariant stats == FreshStats(c)[..k]
        {
          lastNodeRef := lastNodeRef + 1;
          childRefs := childRefs + [NodeRef(lastNodeRef)];
          stats := stats + [Stats(0, 0.0, 1.0 / (c as real))];
          k := k + 1;
        }
        assert stats == FreshStats(c);
        var statsMap := NewActionMap(stats);
        var refsMap := NewActionMap(childRefs);
        assert statsMap.items == stats && refsMap.items == childRefs;
        var newStats := if node.actionStats.None? then Some(statsMap) else node.actionStats;
        nodes := nodes[r.index := node.(actions := Some(refsMap), actionStats := newStats)];
      }
    }

    /** `add_children`: appends one node per action, holding `take` of that action, in action order. */
    method AddChildren(r: NodeRef)
      requires r.index < |nodes|
      modifies this
      ensures nodes == old(nodes) + ChildNodes(ops, old(nodes[r.index].state))
    {
      var state := nodes[r.index].state;
      var actions := ActionIter(ops.actionCount(state));
      var childStates: seq<S> := [];
      var k := 0;
      while k < |actions|
        invariant 0 <= k <= |actions|
        invariant |childStates| == k
        invariant forall j :: 0 <= j < k ==> childStates[j] == ops.take(state, Action(j))
      {
        childStates := childStates + [ops.take(state, actions[k])];
        k := k + 1;
      }
      ghost var before := nodes;
      k := 0;
      while k < |childStates|
        invariant 0 <= k <= |childStates|
        invariant nodes == before + ChildNodes(ops, state)[..k]
      {
        var _ := AddNode(childStates[k]);
        assert ChildNodes(ops, state)[..k + 1] == ChildNodes(ops, state)[..k] + [NewNode(childStates[k])];
        k := k + 1;
      }
      assert ChildNodes(ops, state)[..k] == ChildNodes(ops, state);
    }

    /**
     * `open_if_not`: an expanded node is left alone, so opening twice is
     * opening once; otherwise the node is expanded.
     */
    method OpenIfNot(r: NodeRef)
      requires Valid() && r.index < |nodes|
      modifies this
      ensures |old(nodes)| <= |nodes|
      ensures Valid() && nodes[r.index].HasActions() && NodeOk(ops, nodes, r.index)
      ensures old(nodes[r.index].HasActions()) ==> nodes == old(nodes)
      ensures !old(nodes[r.index].HasActions()) ==> nodes == Expand(ops, old(nodes), r.index)
    {
      if IsOpen(r) {
        return;
      }
      assert NodeOk(ops, nodes, r.index);
      ExpandEffect(ops, nodes, r.index);
      InitActions(r);
      AddChildren(r);
    }

    /**
     * `Nodes::select_action`: opens the node and takes its last maximal
     * PUCT action; the child handle points at `take` of that action. A
     * node without actions makes the source panic.
     */
    method SelectAction(r: NodeRef, sqrt: real -> real) returns (a: Action, child: NodeRef)
      requires Valid() && r.index < |nodes| && ops.actionCount(nodes[r.index].state) > 0
      modifies this
      ensures |old(nodes)| <= |nodes|
      ensures Valid() && nodes[r.index].HasActions() && NodeOk(ops, nodes, r.index)
      ensures old(nodes[r.index].HasActions()) ==> nodes == old(nodes)
      ensures !old(nodes[r.index].HasActions()) ==> nodes == Expand(ops, old(nodes), r.index)
      ensures a.index == LastMax(nodes[r.index].Scores(sqrt))
      ensures child == nodes[r.index].actions.value.At(a)
      ensures child.index < |nodes| && nodes[child.index].state == ops.take(nodes[r.index].state, a)
    {
      OpenIfNot(r);
      assert NodeOk(ops, nodes, r.index);
      a, child := nodes[r.index].SelectAction(ExploreFactor, sqrt);
    }

    /**
     * `Nodes::sample_action` for the draw `r`: opens the node and picks by
     * the running sum of its probabilities; a node without actions makes the
     * source panic.
     */
    method SampleAction(r: NodeRef, temperature: Float, draw: real, pow: (nat, real) -> real) returns (a: Action, child: NodeRef)
      requires Valid() && r.index < |nodes| && ops.actionCount(nodes[r.index].state) > 0
      modifies this
      ensures |old(nodes)| <= |nodes|
      ensures Valid() && nodes[r.index].HasActions() && NodeOk(ops, nodes, r.index)
      ensures old(nodes[r.index].HasActions()) ==> nodes == old(nodes)
      ensures !old(nodes[r.index].HasActions()) ==> nodes == Expand(ops, old(nodes), r.index)
      ensures a.index == FindOrLast(nodes[r.index].ActionProbability(temperature, pow).items, draw)
      ensures child == nodes[r.index].actions.value.At(a)
      ensures child.index < |nodes| && nodes[child.index].state == ops.take(nodes[r.index].state, a)
    {
      OpenIfNot(r);
      assert NodeOk(ops, nodes, r.index);
      a, child := nodes[r.index].SampleAction(temperature, draw, pow);
    }
  }

  /**
   * Every step `(node, action)` of a path names an expanded node of the
   * arena and one of its actions: what `back` holds.
   */
  ghost predicate OnPath<S>(nodes: seq<Node<S>>, path: seq<(NodeRef, Action)>)
  {
    forall k :: 0 <= k < |path| ==>
      path[k].0.index < |nodes| && nodes[path[k].0.index].HasActions() &&
      path[k].1.index < nodes[path[k].0.index].actionStats.value.Len()
  }

  /**
   * The descent of one simulation from `cur`: while the node has been
   * visited and is not terminal, record it with its last maximal PUCT
   * action and move to that action's child. Returns the recorded path and
   * the leaf where it stopped.
   */
  function Descent<S>(ops: StateOps<S>, sqrt: real -> real, nodes: seq<Node<S>>, cur: NodeRef): (d: (seq<(NodeRef, Action)>, NodeRef))
    requires Arena(ops, nodes) && cur.index < |nodes|
    ensures cur.index <= d.1.index < |nodes|
    ensures OnPath(nodes, d.0)
    decreases |nodes| - cur.index
  {
    var n := nodes[cur.index];
    if n.visitCount > 0 && ops.reward(n.state).None? then
      assert NodeOk(ops, nodes, cur.index);
      var a := Action(LastMax(n.Scores(sqrt)));
      var child := n.actions.value.At(a);
      var rest := Descent(ops, sqrt, nodes, child);
      ([(cur, a)] + rest.0, rest.1)
    else
      ([], cur)
  }

  /**
   * The descent starts at `cur`, only moves to higher indices (children
   * sit after their parents), and ends above every node it recorded.
   */
  lemma {:induction false} DescentIncreases<S>(ops: StateOps<S>, sqrt: real -> real, nodes: seq<Node<S>>, cur: NodeRef)
    requires Arena(ops, nodes) && cur.index < |nodes|
    ensures var d := Descent(ops, sqrt, nodes, cur);
      (|d.0| > 0 ==> d.0[0].0 == cur) &&
      (forall k :: 0 <= k < |d.0| ==> cur.index <= d.0[k].0.index < d.1.index) &&
      (forall k, l :: 0 <= k < l < |d.0| ==> d.0[k].0.index < d.0[l].0.index)
    decreases |nodes| - cur.index
  {
    var n := nodes[cur.index];
    if n.visitCount > 0 && ops.reward(n.state).None? {
      DescentStep(ops, sqrt, nodes, cur);
      var a := Action(LastMax(n.Scores(sqrt)));
      var child := n.actions.value.At(a);
      var rest := Descent(ops, sqrt, nodes, child);
      DescentIncreases(ops, sqrt, nodes, child);
      var p := [(cur, a)] + rest.0;
      assert forall k :: 0 < k < |p| ==> p[k] == rest.0[k - 1];
    }
  }

  /**
   * One step of the descent, as the loop of `simulate` takes it: a visited,
   * non-terminal node is expanded with at least one action, and the descent
   * from it is that node and its PUCT action followed by the descent from
   * the action's child.
   */
  lemma DescentStep<S>(ops: StateOps<S>, sqrt: real -> real, nodes: seq<Node<S>>, cur: NodeRef)
    requires Arena(ops, nodes) && cur.index < |nodes|
    requires nodes[cur.index].visitCount > 0 && ops.reward(nodes[cur.index].state).None?
    ensures var n := nodes[cur.index];
      n.actions.Some? && n.actionStats.Some? && ops.actionCount(n.state) > 0 &&
      n.actionStats.value.Len() == n.actions.value.Len() == ops.actionCount(n.state)
    ensures var n := nodes[cur.index];
      var a := Action(LastMax(n.Scores(sqrt)));
      var child := n.actions.value.At(a);
      cur.index < child.index < |nodes| &&
      Descent(ops, sqrt, nodes, cur).0 == [(cur, a)] + Descent(ops, sqrt, nodes, child).0 &&
      Descent(ops, sqrt, nodes, cur).1 == Descent(ops, sqrt, nodes, child).1
  {
    assert NodeOk(ops, nodes, cur.index);
  }

  /**
   * One step of the descent loop: when the descent from `start` is `back`
   * followed by the descent from `cur`, and `cur` is visited and not
   * terminal, it is `back` with `cur`'s PUCT move followed by the descent
   * from that move's child.
   */
  lemma DescentFrom<S>(ops: StateOps<S>, sqrt: real -> real, nodes: seq<Node<S>>, start: NodeRef,
                       back: seq<(NodeRef, Action)>, cur: NodeRef)
    requires Arena(ops, nodes) && start.index < |nodes| && cur.index < |nodes|
    requires nodes[cur.index].visitCount > 0 && ops.reward(nodes[cur.index].state).None?
    requires Descent(ops, sqrt, nodes, start).0 == back + Descent(ops, sqrt, nodes, cur).0
    requires Descent(ops, sqrt, nodes, start).1 == Descent(ops, sqrt, nodes, cur).1
    ensures var n := nodes[cur.index];
      n.actions.Some? && n.actionStats.Some? && n.actionStats.value.Len() > 0 &&
      n.actionStats.value.Len() == n.actions.value.Len()
    ensures var n := nodes[cur.index];
      var a := Action(LastMax(n.Scores(sqrt)));
      var child := n.actions.value.At(a);
      cur.index < child.index < |nodes| &&
      Descent(ops, sqrt, nodes, start).0 == (back + [(cur, a)]) + Descent(ops, sqrt, nodes, child).0 &&
      Descent(ops, sqrt, nodes, start).1 == Descent(ops, sqrt, nodes, child).1
  {
    DescentStep(ops, sqrt, nodes, cur);
    var n := nodes[cur.index];
    var a := Action(LastMax(n.Scores(sqrt)));
    var child := n.actions.value.At(a);
    var rest := Descent(ops, sqrt, nodes, child).0;
    assert (back + [(cur, a)]) + rest == back + ([(cur, a)] + rest);
  }

  /** The value a simulation starts its backup with: the leaf's reward, or 0 when it is not terminal. */
  function LeafValue<S>(ops: StateOps<S>, leaf: Node<S>): real
  {
    match ops.reward(leaf.state)
    case Some(reward) => reward
    case None => 0.0
  }

  /**
   * One round of the backup loop on the popped node: N(s) + 1, and the
   * popped action's count + 1 and total + `v`.
   */
  function BackedUp<S>(n: Node<S>, a: Action, v: real): (m: Node<S>)
    requires n.HasActions() && a.index < n.actionStats.value.Len()
    ensures m.state == n.state && m.actions == n.actions && m.HasActions()
    ensures m.actionStats.value.Len() == n.actionStats.value.Len()
  {
    var s := n.actionStats.value.At(a);
    n.(visitCount := n.visitCount + 1,
       actionStats := Some(n.actionStats.value.Update(a, Stats(s.count + 1, s.totalValue + v, s.prior))))
  }

  /**
   * The backup: pop the path from its end; at each popped `(prev, a)` the
   * value becomes `value(prev.state, a, value)` and is then recorded.
   */
  function Backup<S>(ops: StateOps<S>, nodes: seq<Node<S>>, path: seq<(NodeRef, Action)>, value: real): (r: seq<Node<S>>)
    requires OnPath(nodes, path)
    ensures |r| == |nodes|
    decreases |path|
  {
    if |path| == 0 then nodes
    else
      var prev := path[|path| - 1].0;
      var a := path[|path| - 1].1;
      var n := nodes[prev.index];
      var v := ops.value(n.state, a, value);
      Backup(ops, nodes[prev.index := BackedUp(n, a, v)], path[..|path| - 1], v)
  }

  /**
   * One round of the backup loop: popping the last step of the path,
   * turning the value and recording it at that step leaves the rest of the
   * path on the arena, with the same backup still to come.
   */
  lemma BackupStep<S>(ops: StateOps<S>, nodes: seq<Node<S>>, path: seq<(NodeRef, Action)>, value: real)
    requires OnPath(nodes, path) && |path| > 0
    ensures var (prev, a) := path[|path| - 1];
      var v := ops.value(nodes[prev.index].state, a, value);
      var next := nodes[prev.index := BackedUp(nodes[prev.index], a, v)];
      OnPath(next, path[..|path| - 1]) &&
      Backup(ops, nodes, path, value) == Backup(ops, next, path[..|path| - 1], v)
  {
  }

  /** How many steps of `path` are at node `i`. */
  function Occurrences(path: seq<(NodeRef, Action)>, i: nat): nat
  {
    if |path| == 0 then 0
    else Occurrences(path[..|path| - 1], i) + (if path[|path| - 1].0.index == i then 1 else 0)
  }

  /** Two arenas with the same nodes up to their counters. */
  ghost predicate SameLinks<S>(a: seq<Node<S>>, b: seq<Node<S>>)
  {
    |a| == |b| &&
    forall i :: 0 <= i < |a| ==>
      a[i].state == b[i].state && a[i].actions == b[i].actions &&
      (a[i].HasActions() <==> b[i].HasActions()) &&
      (a[i].HasActions() ==> a[i].actionStats.value.Len() == b[i].actionStats.value.Len())
  }

  /**
   * The backup changes only counters: states and links stay, a node off
   * the path is untouched, and each node's N(s) rises by the number of
   * times the path passes through it.
   */
  lemma {:induction false} BackupFrame<S>(ops: StateOps<S>, nodes: seq<Node<S>>, path: seq<(NodeRef, Action)>, value: real)
    requires OnPath(nodes, path)
    ensures SameLinks(nodes, Backup(ops, nodes, path, value))
    ensures forall i :: 0 <= i < |nodes| && Occurrences(path, i) == 0 ==> Backup(ops, nodes, path, value)[i] == nodes[i]
    ensures forall i :: 0 <= i < |nodes| ==>
      Backup(ops, nodes, path, value)[i].visitCount == nodes[i].visitCount + Occurrences(path, i)
    decreases |path|
  {
    if |path| > 0 {
      var prev := path[|path| - 1].0;
      var a := path[|path| - 1].1;
      var n := nodes[prev.index];
      var v := ops.value(n.state, a, value);
      var next := nodes[prev.index := BackedUp(n, a, v)];
      BackupFrame(ops, next, path[..|path| - 1], v);
    }
  }

  /** A backed-up node keeps its counters consistent. */
  lemma BackedUpCounted<S>(n: Node<S>, a: Action, v: real)
    requires Counted(n) && n.HasActions() && a.index < n.actionStats.value.Len()
    ensures Counted(BackedUp(n, a, v))
  {
    var stats := n.actionStats.value.items;
    var s := stats[a.index];
    SumCountsIncrement(stats, a.index, Stats(s.count + 1, s.totalValue + v, s.prior));
    assert BackedUp(n, a, v).actionStats.value.items == stats[a.index := Stats(s.count + 1, s.totalValue + v, s.prior)];
  }

  /** Replacing a node by one with the same links and consistent counters keeps the arena invariant. */
  lemma ReplaceCounters<S>(ops: StateOps<S>, nodes: seq<Node<S>>, i: nat, m: Node<S>)
    requires Arena(ops, nodes) && i < |nodes| && Counted(m)
    requires m.state == nodes[i].state && m.actions == nodes[i].actions
    requires m.HasActions() <==> nodes[i].HasActions()
    requires m.HasActions() ==> m.actionStats.value.Len() == nodes[i].actionStats.value.Len()
    ensures Arena(ops, nodes[i := m])
  {
    var e := nodes[i := m];
    forall j | 0 <= j < |e|
      ensures NodeOk(ops, e, j)
    {
      assert NodeOk(ops, nodes, j);
      var n := nodes[j];
      if n.actions.Some? {
        var refs := n.actions.value.items;
        forall k | 0 <= k < |refs|
          ensures e[refs[k].index].state == nodes[refs[k].index].state
        {
        }
      }
    }
  }

  /** The backup keeps the arena invariant. */
  lemma {:induction false} BackupKeepsArena<S>(ops: StateOps<S>, nodes: seq<Node<S>>, path: seq<(NodeRef, Action)>, value: real)
    requires Arena(ops, nodes) && OnPath(nodes, path)
    ensures Arena(ops, Backup(ops, nodes, path, value))
    decreases |path|
  {
    if |path| > 0 {
      var prev := path[|path| - 1].0;
      var a := path[|path| - 1].1;
      var n := nodes[prev.index];
      var v := ops.value(n.state, a, value);
      assert NodeOk(ops, nodes, prev.index);
      BackedUpCounted(n, a, v);
      ReplaceCounters(ops, nodes, prev.index, BackedUp(n, a, v));
      BackupKeepsArena(ops, nodes[prev.index := BackedUp(n, a, v)], path[..|path| - 1], v);
    }
  }

  /** One simulation from `start`: descend, value the leaf, back the value up the path. */
  function SimulateOnce<S>(ops: StateOps<S>, sqrt: real -> real, nodes: seq<Node<S>>, start: NodeRef): (r: seq<Node<S>>)
    requires Arena(ops, nodes) && start.index < |nodes|
    ensures Arena(ops, r) && |r| == |nodes|
    ensures SameLinks(nodes, r)
  {
    var d := Descent(ops, sqrt, nodes, start);
    BackupKeepsArena(ops, nodes, d.0, LeafValue(ops, nodes[d.1.index]));
    BackupFrame(ops, nodes, d.0, LeafValue(ops, nodes[d.1.index]));
    Backup(ops, nodes, d.0, LeafValue(ops, nodes[d.1.index]))
  }

  /** `count` simulations from `start`, one after the other. */
  function Simulations<S>(ops: StateOps<S>, sqrt: real -> real, nodes: seq<Node<S>>, start: NodeRef, count: nat): (r: seq<Node<S>>)
    requires Arena(ops, nodes) && start.index < |nodes|
    ensures Arena(ops, r) && |r| == |nodes|
    ensures SameLinks(nodes, r)
    decreases count
  {
    if count == 0 then nodes
    else
      var before := Simulations(ops, sqrt, nodes, start, count - 1);
      SameLinksTransitive(nodes, before, SimulateOnce(ops, sqrt, before, start));
      SimulateOnce(ops, sqrt, before, start)
  }

  /**
   * A simulation from a node never visited, or from a terminal node, changes
   * nothing: the descent stops at once and the path is empty.
   */
  lemma SimulateOnceIdle<S>(ops: StateOps<S>, sqrt: real -> real, nodes: seq<Node<S>>, start: NodeRef)
    requires Arena(ops, nodes) && start.index < |nodes|
    requires nodes[start.index].visitCount == 0 || ops.reward(nodes[start.index].state).Some?
    ensures SimulateOnce(ops, sqrt, nodes, start) == nodes
  {
  }

  /**
   * So simulations from a node never visited change nothing, however many:
   * on a fresh tree `simulate` leaves every count at 0.
   */
  lemma {:induction false} SimulationsFromUnvisited<S>(ops: StateOps<S>, sqrt: real -> real, nodes: seq<Node<S>>, start: NodeRef, count: nat)
    requires Arena(ops, nodes) && start.index < |nodes| && nodes[start.index].visitCount == 0
    ensures Simulations(ops, sqrt, nodes, start, count) == nodes
    decreases count
  {
    if count > 0 {
      SimulationsFromUnvisited(ops, sqrt, nodes, start, count - 1);
      SimulateOnceIdle(ops, sqrt, nodes, start);
    }
  }

  /** Along a strictly increasing path every node occurs at most once; the first one exactly once. */
  lemma {:induction false} OccurrencesOnIncreasingPath(path: seq<(NodeRef, Action)>, i: nat)
    requires forall k, l :: 0 <= k < l < |path| ==> path[k].0.index < path[l].0.index
    ensures Occurrences(path, i) <= 1
    ensures Occurrences(path, i) == 1 <==> exists k :: 0 <= k < |path| && path[k].0.index == i
    decreases |path|
  {
    if |path| > 0 {
      var front := path[..|path| - 1];
      OccurrencesOnIncreasingPath(front, i);
      if path[|path| - 1].0.index == i {
        assert forall k :: 0 <= k < |front| ==> front[k].0.index != i;
      } else {
        if exists k :: 0 <= k < |path| && path[k].0.index == i {
          var k :| 0 <= k < |path| && path[k].0.index == i;
          assert front[k].0.index == i;
        }
      }
    }
  }

  /**
   * A simulation from a visited, non-terminal node counts one more visit of
   * it, and of every node on its descent; every other node is untouched
   * and no node is added.
   */
  lemma SimulateOnceCountsPath<S>(ops: StateOps<S>, sqrt: real -> real, nodes: seq<Node<S>>, start: NodeRef)
    requires Arena(ops, nodes) && start.index < |nodes|
    requires nodes[start.index].visitCount > 0 && ops.reward(nodes[start.index].state).None?
    ensures var r := SimulateOnce(ops, sqrt, nodes, start);
      var path := Descent(ops, sqrt, nodes, start).0;
      SameLinks(nodes, r) &&
      r[start.index].visitCount == nodes[start.index].visitCount + 1 &&
      (forall k :: 0 <= k < |path| ==> r[path[k].0.index].visitCount == nodes[path[k].0.index].visitCount + 1) &&
      (forall i :: 0 <= i < |nodes| && (forall k :: 0 <= k < |path| ==> path[k].0.index != i) ==> r[i] == nodes[i])
  {
    var d := Descent(ops, sqrt, nodes, start);
    var v := LeafValue(ops, nodes[d.1.index]);
    BackupFrame(ops, nodes, d.0, v);
    DescentIncreases(ops, sqrt, nodes, start);
    assert |d.0| > 0 && d.0[0].0 == start;
    forall i | 0 <= i < |nodes|
      ensures Occurrences(d.0, i) == 1 <==> exists k :: 0 <= k < |d.0| && d.0[k].0.index == i
      ensures Occurrences(d.0, i) <= 1
    {
      OccurrencesOnIncreasingPath(d.0, i);
    }
  }

  /** No node of the arena has been visited. */
  ghost predicate AllUnvisited<S>(nodes: seq<Node<S>>)
  {
    forall i :: 0 <= i < |nodes| ==> nodes[i].visitCount == 0
  }

  /**
   * `b` is `a` with possibly more nodes, more expanded nodes, and other
   * counters: every node of `a` keeps its state, and an expanded one stays
   * expanded with as many actions.
   */
  ghost predicate Extends<S>(a: seq<Node<S>>, b: seq<Node<S>>)
  {
    |a| <= |b| &&
    forall i :: 0 <= i < |a| ==>
      b[i].state == a[i].state &&
      (a[i].HasActions() ==> b[i].HasActions() && b[i].actionStats.value.Len() == a[i].actionStats.value.Len())
  }

  /** Expanding a node extends the arena, and keeps it unvisited when it was. */
  lemma ExpandExtends<S>(ops: StateOps<S>, nodes: seq<Node<S>>, i: nat)
    requires Arena(ops, nodes) && i < |nodes| && !nodes[i].HasActions()
    ensures Extends(nodes, Expand(ops, nodes, i))
    ensures AllUnvisited(nodes) ==> AllUnvisited(Expand(ops, nodes, i))
  {
    ExpandEffect(ops, nodes, i);
  }

  /** Keeping the links chains. */
  lemma SameLinksTransitive<S>(a: seq<Node<S>>, b: seq<Node<S>>, c: seq<Node<S>>)
    requires SameLinks(a, b) && SameLinks(b, c)
    ensures SameLinks(a, c)
  {
  }

  /** Keeping the links extends the arena. */
  lemma SameLinksExtends<S>(a: seq<Node<S>>, b: seq<Node<S>>)
    requires SameLinks(a, b)
    ensures Extends(a, b)
  {
  }

  /**
   * The moves `path` lead from `root` to `end`: the first step is at the
   * root, and each step's node holds `take` of the previous step's state
   * and action.
   */
  ghost predicate Walk<S>(ops: StateOps<S>, nodes: seq<Node<S>>, root: NodeRef, path: seq<(NodeRef, Action)>, end: NodeRef)
  {
    OnPath(nodes, path) && root.index < |nodes| && end.index < |nodes| &&
    (if |path| == 0 then end == root else path[0].0 == root) &&
    (forall k :: 0 < k < |path| ==>
      nodes[path[k].0.index].state == ops.take(nodes[path[k - 1].0.index].state, path[k - 1].1)) &&
    (|path| > 0 ==> nodes[end.index].state == ops.take(nodes[path[|path| - 1].0.index].state, path[|path| - 1].1))
  }

  /** Every move of `path` is the last action of its node. */
  ghost predicate LastActions<S>(ops: StateOps<S>, nodes: seq<Node<S>>, path: seq<(NodeRef, Action)>)
    requires OnPath(nodes, path)
  {
    forall k :: 0 <= k < |path| ==> path[k].1.index + 1 == ops.actionCount(nodes[path[k].0.index].state)
  }

  /** Extending the arena keeps a walk a walk, and keeps which actions were last. */
  lemma WalkExtends<S>(ops: StateOps<S>, a: seq<Node<S>>, b: seq<Node<S>>, root: NodeRef, path: seq<(NodeRef, Action)>, end: NodeRef)
    requires Walk(ops, a, root, path, end) && Extends(a, b)
    ensures Walk(ops, b, root, path, end)
    ensures LastActions(ops, a, path) ==> LastActions(ops, b, path)
  {
    assert forall k :: 0 <= k < |path| ==> b[path[k].0.index].state == a[path[k].0.index].state;
  }

  /**
   * Committing the move `a` at the end of a walk, to the node holding
   * `take` of its state, gives a walk one step longer; and a last action
   * keeps every move a last action.
   */
  lemma WalkStep<S>(ops: StateOps<S>, nodes: seq<Node<S>>, root: NodeRef, path: seq<(NodeRef, Action)>, end: NodeRef, a: Action, next: NodeRef)
    requires Walk(ops, nodes, root, path, end)
    requires nodes[end.index].HasActions() && a.index < nodes[end.index].actionStats.value.Len()
    requires next.index < |nodes| && nodes[next.index].state == ops.take(nodes[end.index].state, a)
    ensures Walk(ops, nodes, root, path + [(end, a)], next)
    ensures LastActions(ops, nodes, path) && a.index + 1 == ops.actionCount(nodes[end.index].state) ==>
      LastActions(ops, nodes, path + [(end, a)])
  {
    var p := path + [(end, a)];
    assert forall k :: 0 <= k < |path| ==> p[k] == path[k];
  }

  /** Extending the arena chains. */
  lemma ExtendsTransitive<S>(a: seq<Node<S>>, b: seq<Node<S>>, c: seq<Node<S>>)
    requires Extends(a, b) && Extends(b, c)
    ensures Extends(a, c)
  {
  }

  /**
   * Simulations from the end of a walk keep it a walk, and keep which moves
   * were last actions; on an arena never visited they change nothing.
   */
  lemma SimulationsKeepWalk<S>(ops: StateOps<S>, sqrt: real -> real, nodes: seq<Node<S>>, root: NodeRef,
                               path: seq<(NodeRef, Action)>, end: NodeRef, count: nat)
    requires Arena(ops, nodes) && Walk(ops, nodes, root, path, end)
    ensures var after := Simulations(ops, sqrt, nodes, end, count);
      Extends(nodes, after) && Walk(ops, after, root, path, end) &&
      (LastActions(ops, nodes, path) ==> LastActions(ops, after, path)) &&
      (AllUnvisited(nodes) ==> after == nodes)
  {
    SameLinksExtends(nodes, Simulations(ops, sqrt, nodes, end, count));
    WalkExtends(ops, nodes, Simulations(ops, sqrt, nodes, end, count), root, path, end);
    if AllUnvisited(nodes) {
      SimulationsFromUnvisited(ops, sqrt, nodes, end, count);
    }
  }

  /**
   * Opening the end of a walk, if it was not open, keeps it a walk, keeps
   * which moves were last actions, and keeps an unvisited arena unvisited.
   */
  lemma OpenKeepsWalk<S>(ops: StateOps<S>, nodes: seq<Node<S>>, after: seq<Node<S>>, root: NodeRef,
                         path: seq<(NodeRef, Action)>, end: NodeRef)
    requires Arena(ops, nodes) && Walk(ops, nodes, root, path, end)
    requires after == nodes || (!nodes[end.index].HasActions() && after == Expand(ops, nodes, end.index))
    ensures Extends(nodes, after) && Walk(ops, after, root, path, end)
    ensures LastActions(ops, nodes, path) ==> LastActions(ops, after, path)
    ensures AllUnvisited(nodes) ==> AllUnvisited(after)
  {
    if after != nodes {
      ExpandExtends(ops, nodes, end.index);
    }
    WalkExtends(ops, nodes, after, root, path, end);
  }

  /**
   * At an expanded node never visited, `sample_action` takes the last
   * action whatever the draw, since every probability is 0/0 or inf/inf;
   * except at an infinite temperature, where every probability is 1 and a
   * draw of at most 1 takes the first action.
   */
  lemma UnvisitedSampling<S>(ops: StateOps<S>, nodes: seq<Node<S>>, i: nat, temperature: Float, draw: real, pow: (nat, real) -> real)
    requires Arena(ops, nodes) && i < |nodes|
    requires nodes[i].HasActions() && nodes[i].actionStats.value.Len() > 0 && nodes[i].visitCount == 0
    ensures !temperature.Inf? ==>
      FindOrLast(nodes[i].ActionProbability(temperature, pow).items, draw) == nodes[i].actionStats.value.Len() - 1
    ensures temperature.Inf? && draw <= 1.0 ==>
      FindOrLast(nodes[i].ActionProbability(temperature, pow).items, draw) == 0
  {
    assert NodeOk(ops, nodes, i);
    var stats := nodes[i].actionStats.value.items;
    SumCountsZero(stats);
    UnvisitedProbabilities(stats, temperature, pow);
    if temperature.Inf? {
      if draw <= 1.0 {
        FirstOnePicksFirst(nodes[i].ActionProbability(temperature, pow).items, draw);
      }
    } else {
      AllNaNPicksLast(nodes[i].ActionProbability(temperature, pow).items, draw);
    }
  }

  /**
   * `action` is what `sample_action` picks at the open node `cur` for the
   * draw, and `next` is that action's child handle.
   */
  ghost predicate Sampled<S>(nodes: seq<Node<S>>, cur: NodeRef, temperature: Float, pow: (nat, real) -> real,
                             draw: real, action: Action, next: NodeRef)
    requires cur.index < |nodes|
  {
    var n := nodes[cur.index];
    n.HasActions() && n.actionStats.value.Len() > 0 &&
    action.index == FindOrLast(n.ActionProbability(temperature, pow).items, draw) &&
    n.actions.Some? && action.index < n.actions.value.Len() && next == n.actions.value.At(action)
  }

  /** Every move of `path` is the first action of its node. */
  ghost predicate FirstActions(path: seq<(NodeRef, Action)>)
  {
    forall k :: 0 <= k < |path| ==> path[k].1.index == 0
  }

  /**
   * The value the episode records after `n` steps of the committed path,
   * folding `value` over the steps from the root onwards, starting from the
   * terminal reward.
   */
  function ChainValue<S>(ops: StateOps<S>, nodes: seq<Node<S>>, path: seq<(NodeRef, Action)>, reward: real, n: nat): real
    requires n <= |path| && forall k :: 0 <= k < |path| ==> path[k].0.index < |nodes|
  {
    if n == 0 then reward
    else ops.value(nodes[path[n - 1].0.index].state, path[n - 1].1, ChainValue(ops, nodes, path, reward, n - 1))
  }

  /**
   * In a zero-sum game whose `value` always negates, the k-th example's
   * value is the terminal reward negated k + 1 times: its sign depends on
   * the distance from the root, not from the terminal state.
   */
  lemma {:induction false} ChainValueAlternates<S>(ops: StateOps<S>, nodes: seq<Node<S>>, path: seq<(NodeRef, Action)>, reward: real, n: nat)
    requires n <= |path| && forall k :: 0 <= k < |path| ==> path[k].0.index < |nodes|
    requires forall s, a, v :: ops.value(s, a, v) == -v
    ensures ChainValue(ops, nodes, path, reward, n) == if n % 2 == 0 then reward else -reward
  {
    if n > 0 {
      ChainValueAlternates(ops, nodes, path, reward, n - 1);
    }
  }

  /** `Example`: the state's integer grid, the visit-count probabilities, and the value. */
  datatype Example = Example(state: seq<seq<int>>, pi: ActionMap<Float>, value: real)

  /**
   * How an episode ends: the examples of a game that reached a terminal
   * state; the draws ran out first (the source loops until a terminal
   * state); or a non-terminal node had no action (the source panics).
   */
  datatype Episode = Finished(examples: seq<Example>) | OutOfDraws | NoAction

  /** The example `execute_episode` yields for step `k` of the committed path. */
  function EpisodeExample<S>(ops: StateOps<S>, nodes: seq<Node<S>>, path: seq<(NodeRef, Action)>, reward: real,
                             temperature: Float, pow: (nat, real) -> real, k: nat): Example
    requires OnPath(nodes, path) && k < |path|
  {
    var node := nodes[path[k].0.index];
    Example(ops.asArray(node.state), node.ActionProbability(temperature, pow), ChainValue(ops, nodes, path, reward, k + 1))
  }

  /** `Tree`: the arena and the handle of its root. */
  class Tree<S>
  {
    const rootRef: NodeRef
    const arena: Nodes<S>

    ghost predicate Valid()
      reads this, arena
    {
      arena.Valid() && rootRef.index < |arena.nodes|
    }

    /** `Tree::new`: a one-node arena holding the initial state, never visited. */
    constructor New(ops: StateOps<S>)
      ensures Valid() && fresh(arena) && arena.ops == ops
      ensures rootRef == NodeRef(0) && arena.nodes == [NewNode(ops.init)]
      ensures AllUnvisited(arena.nodes)
    {
      var root, nodes := Nodes.New(ops);
      rootRef := root;
      arena := nodes;
    }

    /**
     * The descent of `simulate`: from `nodeRef`, while the node was visited
     * and is not terminal, push it with the action `select_action` picks and
     * move to that action's child. A visited node is always open, so the
     * arena's `open_if_not` does nothing here and the node's own
     * `select_action` is called.
     */
    method Select(nodeRef: NodeRef, sqrt: real -> real) returns (back: seq<(NodeRef, Action)>, currRef: NodeRef)
      requires Valid() && nodeRef.index < |arena.nodes|
      ensures back == Descent(arena.ops, sqrt, arena.nodes, nodeRef).0
      ensures currRef == Descent(arena.ops, sqrt, arena.nodes, nodeRef).1
    {
      var ops, nodes := arena.ops, arena.nodes;
      back := [];
      currRef := nodeRef;
      while nodes[currRef.index].visitCount > 0 && ops.reward(nodes[currRef.index].state).None?
        invariant currRef.index < |nodes|
        invariant Descent(ops, sqrt, nodes, nodeRef).0 == back + Descent(ops, sqrt, nodes, currRef).0
        invariant Descent(ops, sqrt, nodes, nodeRef).1 == Descent(ops, sqrt, nodes, currRef).1
        decreases |nodes| - currRef.index
      {
        DescentFrom(ops, sqrt, nodes, nodeRef, back, currRef);
        var action, newCurrRef := nodes[currRef.index].SelectAction(ExploreFactor, sqrt);
        assert action == Action(LastMax(nodes[currRef.index].Scores(sqrt)));
        back := back + [(currRef, action)];
        currRef := newCurrRef;
      }
      assert Descent(ops, sqrt, nodes, currRef).0 == [];
    }

    /**
     * The backup of `simulate`: pop the path, turn the value with `value`
     * of the popped state and action, and count the visit and the value at
     * that node and action.
     */
    method BackupPath(path: seq<(NodeRef, Action)>, leafValue: real)
      requires OnPath(arena.nodes, path)
      modifies arena
      ensures arena.nodes == Backup(arena.ops, old(arena.nodes), path, leafValue)
    {
      var back, value := path, leafValue;
      while |back| > 0
        invariant OnPath(arena.nodes, back)
        invariant Backup(arena.ops, arena.nodes, back, value) == Backup(arena.ops, old(arena.nodes), path, leafValue)
        decreases |back|
      {
        var (prevRef, action) := back[|back| - 1];
        BackupStep(arena.ops, arena.nodes, back, value);
        back := back[..|back| - 1];
        var prev := arena.nodes[prevRef.index];
        var visitCount := prev.visitCount + 1;
        value := arena.ops.value(prev.state, action, value);
        var stats := prev.actionStats.value;
        var prevActionStats := stats.At(action);
        var updated := Stats(prevActionStats.count + 1, prevActionStats.totalValue + value, prevActionStats.prior);
        var popped := prev.(visitCount := visitCount, actionStats := Some(stats.Update(action, updated)));
        assert popped == BackedUp(prev, action, value);
        arena.nodes := arena.nodes[prevRef.index := popped];
      }
    }

    /**
     * `simulate`: `count` times, descend from `nodeRef`, value the leaf by
     * its reward or 0, and back the value up the path.
     */
    method Simulate(nodeRef: NodeRef, count: nat, sqrt: real -> real)
      requires Valid() && nodeRef.index < |arena.nodes|
      modifies arena
      ensures Valid()
      ensures arena.nodes == Simulations(arena.ops, sqrt, old(arena.nodes), nodeRef, count)
    {
      for i := 0 to count
        invariant Valid()
        invariant arena.nodes == Simulations(arena.ops, sqrt, old(arena.nodes), nodeRef, i)
      {
        ghost var start := arena.nodes;
        var back, currRef := Select(nodeRef, sqrt);
        var value := match arena.ops.reward(arena.nodes[currRef.index].state)
          case Some(reward) => reward
          case None => 0.0;
        BackupPath(back, value);
        assert arena.nodes == SimulateOnce(arena.ops, sqrt, start, nodeRef);
      }
    }

    /**
     * One move of `execute_episode` from `curRef`, reached by `back`:
     * simulate from it; with no action, stop (the source panics); otherwise
     * sample an action and move to its child.
     */
    method Advance(ghost back: seq<(NodeRef, Action)>, curRef: NodeRef, simCount: nat, temperature: Float, draw: real, math: MathLib)
      returns (moved: bool, action: Action, next: NodeRef)
      requires Valid() && Walk(arena.ops, arena.nodes, rootRef, back, curRef)
      modifies arena
      ensures Valid() && Extends(old(arena.nodes), arena.nodes)
      ensures !moved ==> (Walk(arena.ops, arena.nodes, rootRef, back, curRef) &&
        arena.ops.actionCount(arena.nodes[curRef.index].state) == 0)
      ensures moved ==> Walk(arena.ops, arena.nodes, rootRef, back + [(curRef, action)], next)
      ensures moved ==> Sampled(arena.nodes, curRef, temperature, math.pow, draw, action, next)
      ensures AllUnvisited(old(arena.nodes)) ==> AllUnvisited(arena.nodes)
      ensures AllUnvisited(old(arena.nodes)) && !temperature.Inf? && LastActions(arena.ops, old(arena.nodes), back) ==>
        (!moved ==> LastActions(arena.ops, arena.nodes, back)) &&
        (moved ==> LastActions(arena.ops, arena.nodes, back + [(curRef, action)]))
      ensures AllUnvisited(old(arena.nodes)) && temperature.Inf? && draw <= 1.0 && moved ==> action.index == 0
    {
      ghost var before := arena.nodes;
      Simulate(curRef, simCount, math.sqrt);
      SimulationsKeepWalk(arena.ops, math.sqrt, before, rootRef, back, curRef, simCount);
      if arena.ops.actionCount(arena.nodes[curRef.index].state) == 0 {
        return false, Action(0), curRef;
      }
      ghost var simulated := arena.nodes;
      action, next := arena.SampleAction(curRef, temperature, draw, math.pow);
      OpenKeepsWalk(arena.ops, simulated, arena.nodes, rootRef, back, curRef);
      ExtendsTransitive(before, simulated, arena.nodes);
      assert NodeOk(arena.ops, arena.nodes, curRef.index);
      if AllUnvisited(before) {
        UnvisitedSampling(arena.ops, arena.nodes, curRef.index, temperature, draw, math.pow);
      }
      WalkStep(arena.ops, arena.nodes, rootRef, back, curRef, action, next);
      moved := true;
    }

    /**
     * The examples of a finished episode, root first: each step's state as
     * an integer grid, its visit-count probabilities, and the value carried
     * from the terminal reward through every earlier step.
     */
    method Examples(back: seq<(NodeRef, Action)>, reward: real, temperature: Float, pow: (nat, real) -> real)
      returns (examples: seq<Example>)
      requires OnPath(arena.nodes, back)
      ensures |examples| == |back|
      ensures forall k :: 0 <= k < |back| ==>
        examples[k] == EpisodeExample(arena.ops, arena.nodes, back, reward, temperature, pow, k)
    {
      var value := reward;
      examples := [];
      var k := 0;
      while k < |back|
        invariant 0 <= k <= |back| && |examples| == k
        invariant value == ChainValue(arena.ops, arena.nodes, back, reward, k)
        invariant forall j :: 0 <= j < k ==>
          examples[j] == EpisodeExample(arena.ops, arena.nodes, back, reward, temperature, pow, j)
      {
        var node := arena.nodes[back[k].0.index];
        value := arena.ops.value(node.state, back[k].1, value);
        examples := examples + [Example(arena.ops.asArray(node.state), node.ActionProbability(temperature, pow), value)];
        k := k + 1;
      }
    }

    /**
     * `execute_episode` with the draws `draws` for `sample_action`: from the
     * root, simulate, sample a move, commit it, until a terminal state is
     * reached; then yield the examples of the committed moves.
     */
    method ExecuteEpisode(simCount: nat, temperature: Float, draws: seq<real>, math: MathLib)
      returns (episode: Episode, ghost path: seq<(NodeRef, Action)>, ghost leaf: NodeRef)
      requires Valid()
      modifies arena
      ensures Valid() && Extends(old(arena.nodes), arena.nodes)
      ensures Walk(arena.ops, arena.nodes, rootRef, path, leaf) && |path| <= |draws|
      ensures episode.Finished? ==>
        |path| > 0 && arena.ops.reward(arena.nodes[leaf.index].state).Some? &&
        |episode.examples| == |path| &&
        (forall k :: 0 <= k < |path| ==>
          episode.examples[k] == EpisodeExample(arena.ops, arena.nodes, path, arena.ops.reward(arena.nodes[leaf.index].state).value, temperature, math.pow, k))
      ensures episode.OutOfDraws? ==> |path| == |draws|
      ensures episode.NoAction? ==> arena.ops.actionCount(arena.nodes[leaf.index].state) == 0
      ensures AllUnvisited(old(arena.nodes)) ==> AllUnvisited(arena.nodes)
      ensures AllUnvisited(old(arena.nodes)) && !temperature.Inf? ==> LastActions(arena.ops, arena.nodes, path)
      ensures AllUnvisited(old(arena.nodes)) && temperature.Inf? && (forall k :: 0 <= k < |draws| ==> draws[k] <= 1.0) ==>
        FirstActions(path)
    {
      var curRef := rootRef;
      var back: seq<(NodeRef, Action)> := [];
      var t := 0;
      while t < |draws|
        invariant Valid() && Extends(old(arena.nodes), arena.nodes)
        invariant |back| == t <= |draws|
        invariant Walk(arena.ops, arena.nodes, rootRef, back, curRef)
        invariant AllUnvisited(old(arena.nodes)) ==> AllUnvisited(arena.nodes)
        invariant AllUnvisited(old(arena.nodes)) && !temperature.Inf? ==> LastActions(arena.ops, arena.nodes, back)
        invariant AllUnvisited(old(arena.nodes)) && temperature.Inf? && (forall k :: 0 <= k < |draws| ==> draws[k] <= 1.0) ==>
          FirstActions(back)
      {
        var moved, action, newCurRef := Advance(back, curRef, simCount, temperature, draws[t], math);
        if !moved {
          episode, path, leaf := NoAction, back, curRef;
          return;
        }
        back := back + [(curRef, action)];
        curRef := newCurRef;
        t := t + 1;
        match arena.ops.reward(arena.nodes[curRef.index].state)
        case Some(reward) =>
          var examples := Examples(back, reward, temperature, math.pow);
          episode, path, leaf := Finished(examples), back, curRef;
          return;
        case None =>
      }
      episode, path, leaf := OutOfDraws, back, curRef;
    }
  }
}
