/*
 * Monte Carlo tree search bookkeeping.  The tree's nodes live in an arena
 * (a sequence indexed by node number, the root at 0); each node's children
 * dictionary is kept as its (action, node index) entries in insertion
 * order.  The network's predict and math.sqrt are parameters of the search
 * object; values are reals.
 */
module Mcts {
  import opened Wrappers
  import opened Board
  import opened OthelloAction
  import opened OthelloState
  import opened OthelloRules

  /** A policy vector over the 65 action indices. */
  type Policy = p: seq<real> | |p| == 65 witness seq(65, i => 0.0)

  /** An MCTSNode: its state, parent, children dictionary, statistics,
      prior P(s, a) and whether it has been expanded. */
  datatype Node = Node(state: State, parent: Option<nat>, children: seq<(Action, nat)>,
                       visitCount: nat, totalValue: real, prior: real, isExpanded: bool)

  /** `MCTSNode(state, parent, prior)`: no children, no visits, no value.
      A new node's mean value is 0 and its total already lies within its
      visit count, the bound that backups keep. */
  function NewNode(state: State, parent: Option<nat>, prior: real): (n: Node)
    ensures n.state == state && n.parent == parent && n.prior == prior
    ensures n.children == [] && !n.isExpanded
    ensures n.visitCount == 0 && n.totalValue == 0.0
    ensures MeanValue(n) == 0.0
    ensures -(n.visitCount as real) <= n.totalValue <= n.visitCount as real
  {
    Node(state, parent, [], 0, 0.0, prior, false)
  }

  /** mean_value: the average backed-up value, 0 before the first visit. */
  function MeanValue(n: Node): (v: real)
    ensures n.visitCount > 0 ==> v * (n.visitCount as real) == n.totalValue
    ensures n.visitCount == 0 ==> v == 0.0
  {
    if n.visitCount > 0 then n.totalValue / n.visitCount as real else 0.0
  }

  /** A node whose total value never exceeds its visit count in size (each
      backup adds a value in [-1, 1]) has a mean value in [-1, 1]. */
  lemma MeanValueBounded(n: Node)
    requires -(n.visitCount as real) <= n.totalValue <= n.visitCount as real
    ensures -1.0 <= MeanValue(n) <= 1.0
  {
    if n.visitCount > 0 {
      RatioBounded(n.totalValue, n.visitCount as real);
    }
  }

  lemma RatioBounded(t: real, c: real)
    requires c > 0.0 && -c <= t <= c
    ensures -1.0 <= t / c <= 1.0
  {
  }

  // ---------------------------------------------------------------------
  // The children dictionary

  /** Where key a sits in a children dictionary, |ch| when it is absent. */
  function KeyIndex(ch: seq<(Action, nat)>, a: Action): (i: nat)
    ensures i <= |ch|
    ensures i < |ch| ==> ch[i].0 == a
    ensures forall k :: 0 <= k < i ==> ch[k].0 != a
    decreases |ch|
  {
    if ch == [] then 0
    else if ch[0].0 == a then 0
    else 1 + KeyIndex(ch[1..], a)
  }

  /** `children.get(a)`. */
  function Lookup(ch: seq<(Action, nat)>, a: Action): Option<nat> {
    var i := KeyIndex(ch, a);
    if i < |ch| then Some(ch[i].1) else None
  }

  /** `children[a] = c`: an existing key keeps its place and takes the new
      node; a new key goes at the end. */
  function Assign(ch: seq<(Action, nat)>, a: Action, c: nat): seq<(Action, nat)> {
    var i := KeyIndex(ch, a);
    if i < |ch| then ch[i := (a, c)] else ch + [(a, c)]
  }

  /** Assign behaves as a dictionary store: afterwards a maps to c and every
      other key maps to what it did before.  A fresh key lengthens the
      dictionary by one, an existing one keeps its length. */
  lemma AssignLookup(ch: seq<(Action, nat)>, a: Action, c: nat, b: Action)
    ensures Lookup(Assign(ch, a, c), a) == Some(c)
    ensures b != a ==> Lookup(Assign(ch, a, c), b) == Lookup(ch, b)
    ensures |Assign(ch, a, c)| == if Lookup(ch, a).None? then |ch| + 1 else |ch|
  {
    var r := Assign(ch, a, c);
    var i := KeyIndex(ch, a);
    assert KeyIndex(r, a) == i by {
      KeyIndexAt(r, a, i);
    }
    if b != a {
      var ib := KeyIndex(ch, b);
      if ib < |ch| {
        assert ib != i;
        KeyIndexAt(r, b, ib);
      } else if i < |ch| {
        KeyIndexAbsent(r, b);
      } else {
        KeyIndexAbsent(r, b);
      }
    }
  }

  /** A key found at position i, with none before it, has index i. */
  lemma {:induction false} KeyIndexAt(ch: seq<(Action, nat)>, a: Action, i: nat)
    requires i < |ch| && ch[i].0 == a && forall k :: 0 <= k < i ==> ch[k].0 != a
    ensures KeyIndex(ch, a) == i
    decreases i
  {
    if i > 0 {
      KeyIndexAt(ch[1..], a, i - 1);
    }
  }

  /** A key in no entry has index |ch|. */
  lemma {:induction false} KeyIndexAbsent(ch: seq<(Action, nat)>, a: Action)
    requires forall k :: 0 <= k < |ch| ==> ch[k].0 != a
    ensures KeyIndex(ch, a) == |ch|
    decreases |ch|
  {
    if ch != [] {
      KeyIndexAbsent(ch[1..], a);
    }
  }

  /** A key not yet in the dictionary goes at the end. */
  lemma AssignNew(ch: seq<(Action, nat)>, a: Action, c: nat)
    requires forall j :: 0 <= j < |ch| ==> ch[j].0 != a
    ensures Assign(ch, a, c) == ch + [(a, c)]
  {
  }

  /** Distinct keys and distinct nodes in a children dictionary. */
  predicate DistinctEntries(ch: seq<(Action, nat)>) {
    forall j1, j2 :: 0 <= j1 < j2 < |ch| ==> ch[j1].0 != ch[j2].0 && ch[j1].1 != ch[j2].1
  }

  /** Assigning a node not yet in the dictionary keeps the keys and nodes
      distinct. */
  lemma AssignDistinct(ch: seq<(Action, nat)>, a: Action, c: nat)
    requires DistinctEntries(ch)
    requires forall j :: 0 <= j < |ch| ==> ch[j].1 != c
    ensures DistinctEntries(Assign(ch, a, c))
  {
  }

  /** Every node in a dictionary after a store was there before or is the
      stored one. */
  lemma AssignFrom(ch: seq<(Action, nat)>, a: Action, c: nat)
    ensures forall j :: 0 <= j < |Assign(ch, a, c)| ==>
              Assign(ch, a, c)[j].1 == c || exists k :: 0 <= k < |ch| && Assign(ch, a, c)[j].1 == ch[k].1
  {
    var r := Assign(ch, a, c);
    forall j | 0 <= j < |r| && r[j].1 != c
      ensures exists k :: 0 <= k < |ch| && r[j].1 == ch[k].1
    {
      assert r[j] == ch[j];
    }
  }

  // ---------------------------------------------------------------------
  // The tree

  /** An entry of node k's children dictionary points at node c. */
  ghost predicate IsChild(nodes: seq<Node>, k: nat, c: nat)
    requires k < |nodes|
  {
    exists j :: 0 <= j < |nodes[k].children| && nodes[k].children[j].1 == c
  }

  /** The links of a tree: children are later nodes that record their
      parent, and each dictionary has distinct keys and nodes. */
  ghost predicate Links(nodes: seq<Node>) {
    && (forall k, j :: 0 <= k < |nodes| && 0 <= j < |nodes[k].children| ==>
          k < nodes[k].children[j].1 < |nodes| && nodes[nodes[k].children[j].1].parent == Some(k))
    && (forall k :: 0 <= k < |nodes| ==> DistinctEntries(nodes[k].children))
  }

  /** The flags of a tree, except at one node: a node is expanded exactly
      when it has children. */
  ghost predicate Flags(nodes: seq<Node>, except: int) {
    forall k :: 0 <= k < |nodes| && k != except ==> (nodes[k].isExpanded <==> nodes[k].children != [])
  }

  /** The shape every search tree keeps. */
  ghost predicate TreeShape(nodes: seq<Node>) {
    Links(nodes) && Flags(nodes, -1)
  }

  /** The node arena of one search. */
  class Tree {
    var nodes: seq<Node>

    ghost predicate Valid()
      reads this
    {
      |nodes| >= 1 && TreeShape(nodes)
    }

    /** A tree holding only the root `MCTSNode(state=initial_state)`. */
    constructor(state: State)
      ensures nodes == [NewNode(state, None, 0.0)]
      ensures Valid()
    {
      nodes := [NewNode(state, None, 0.0)];
    }
  }

  // ---------------------------------------------------------------------
  // get_action_probs

  /** Sum of the visit counts of the nodes a dictionary points at. */
  function ChildVisits(nodes: seq<Node>, ch: seq<(Action, nat)>): nat
    requires forall j :: 0 <= j < |ch| ==> ch[j].1 < |nodes|
  {
    if ch == [] then 0 else ChildVisits(nodes, ch[..|ch| - 1]) + nodes[ch[|ch| - 1].1].visitCount
  }

  /** Sum of the probabilities of a distribution. */
  function ProbSum(ps: seq<(Action, real)>): real {
    if ps == [] then 0.0 else ProbSum(ps[..|ps| - 1]) + ps[|ps| - 1].1
  }

  /** One child's share of the visits. */
  function Share(visits: nat, total: nat): (r: real)
    requires total > 0
    ensures r >= 0.0
  {
    visits as real / total as real
  }

  /** get_action_probs: each child's action, in dictionary order, with its
      share of the visits.  With children but no visits the division fails;
      with no children the dictionary is empty. */
  function GetActionProbs(nodes: seq<Node>, root: nat): (r: Result<seq<(Action, real)>>)
    requires root < |nodes|
    requires forall j :: 0 <= j < |nodes[root].children| ==> nodes[root].children[j].1 < |nodes|
    ensures var ch := nodes[root].children;
      r.Err? <==> ch != [] && ChildVisits(nodes, ch) == 0
    ensures r.Err? ==> r.error == ZeroDivision
    ensures r.Ok? ==> |r.value| == |nodes[root].children|
                      && forall j :: 0 <= j < |r.value| ==> r.value[j].0 == nodes[root].children[j].0
  {
    var ch := nodes[root].children;
    var total := ChildVisits(nodes, ch);
    if ch == [] then Ok([])
    else if total == 0 then Err(ZeroDivision)
    else Ok(seq(|ch|, j requires 0 <= j < |ch| => (ch[j].0, Share(nodes[ch[j].1].visitCount, total))))
  }

  /** The probabilities are the children's visit shares: each is
      non-negative and times the total gives the child's visits ... */
  lemma ActionProbsScaled(nodes: seq<Node>, root: nat)
    requires root < |nodes|
    requires forall j :: 0 <= j < |nodes[root].children| ==> nodes[root].children[j].1 < |nodes|
    requires GetActionProbs(nodes, root).Ok?
    ensures var ch := nodes[root].children;
            var ps := GetActionProbs(nodes, root).value;
      forall j :: 0 <= j < |ps| ==>
        ps[j].1 >= 0.0 && ps[j].1 * ChildVisits(nodes, ch) as real == nodes[ch[j].1].visitCount as real
  {
    var ch := nodes[root].children;
    var total := ChildVisits(nodes, ch);
    var ps := GetActionProbs(nodes, root).value;
    assert ps == seq(|ch|, j requires 0 <= j < |ch| => (ch[j].0, Share(nodes[ch[j].1].visitCount, total)));
    forall j | 0 <= j < |ps|
      ensures ps[j].1 >= 0.0 && ps[j].1 * total as real == nodes[ch[j].1].visitCount as real
    {
      var v := nodes[ch[j].1].visitCount;
      assert ps[j].1 == Share(v, total);
      ShareScaled(v, total);
    }
  }

  /** ... and with at least one child they sum to one. */
  lemma ActionProbsSum(nodes: seq<Node>, root: nat)
    requires root < |nodes|
    requires forall j :: 0 <= j < |nodes[root].children| ==> nodes[root].children[j].1 < |nodes|
    requires GetActionProbs(nodes, root).Ok?
    ensures nodes[root].children != [] ==> ProbSum(GetActionProbs(nodes, root).value) == 1.0
  {
    var ch := nodes[root].children;
    if ch != [] {
      var total := ChildVisits(nodes, ch);
      ProbSumShares(nodes, ch, total, GetActionProbs(nodes, root).value);
      WholeShare(total);
    }
  }

  /** A share times the total gives back the visits. */
  lemma ShareScaled(visits: nat, total: nat)
    requires total > 0
    ensures Share(visits, total) * total as real == visits as real
  {
  }

  /** All the visits make a share of one. */
  lemma WholeShare(total: nat)
    requires total > 0
    ensures total as real / total as real == 1.0
  {
  }

  /** The shares of a positive total add up to the share of the
      dictionary's visits. */
  lemma {:induction false} ProbSumShares(nodes: seq<Node>, ch: seq<(Action, nat)>, total: nat,
                                         ps: seq<(Action, real)>)
    requires forall j :: 0 <= j < |ch| ==> ch[j].1 < |nodes|
    requires total > 0 && |ps| == |ch|
    requires forall j :: 0 <= j < |ch| ==> ps[j].1 == Share(nodes[ch[j].1].visitCount, total)
    ensures ProbSum(ps) == ChildVisits(nodes, ch) as real / total as real
  {
    if ch != [] {
      var n := |ch| - 1;
      assert forall j :: 0 <= j < n ==> ps[..n][j] == ps[j] && ch[..n][j] == ch[j];
      ProbSumShares(nodes, ch[..n], total, ps[..n]);
      AddShares(ChildVisits(nodes, ch[..n]) as real, nodes[ch[n].1].visitCount as real, total as real);
    }
  }

  lemma AddShares(a: real, b: real, t: real)
    requires t > 0.0
    ensures a / t + b / t == (a + b) / t
  {
  }

  // ---------------------------------------------------------------------
  // expand_node, specified

  /** The fresh node expand_node creates for action a of state s. */
  ghost function ChildFor(s: State, idx: nat, policy: Policy, a: Action): Node
    requires a in ValidActions(s)
  {
    ValidActionIndex(s, a);
    NewNode(Successor(s, a), Some(idx), policy[ToIndex(a)])
  }

  /** The fresh nodes for all valid actions of node idx, in order. */
  ghost function FreshChildren(s: State, idx: nat, policy: Policy): (r: seq<Node>)
    ensures |r| == |ValidActions(s)|
  {
    seq(|ValidActions(s)|, j requires 0 <= j < |ValidActions(s)| => ChildFor(s, idx, policy, ValidActions(s)[j]))
  }

  /** The fresh nodes are unexpanded leaves under idx with no visits. */
  lemma FreshKids(s: State, idx: nat, policy: Policy)
    ensures var kids := FreshChildren(s, idx, policy);
      forall j :: 0 <= j < |kids| ==>
        kids[j].children == [] && !kids[j].isExpanded && kids[j].parent == Some(idx) && kids[j].visitCount == 0
  {
  }

  /** A dictionary after the stores acts[j] -> base + j, for j < n, in order. */
  function AssignAll(ch: seq<(Action, nat)>, acts: seq<Action>, base: nat, n: nat): seq<(Action, nat)>
    requires n <= |acts|
    decreases n
  {
    if n == 0 then ch else Assign(AssignAll(ch, acts, base, n - 1), acts[n - 1], base + n - 1)
  }

  /** The arena after the first n steps of expand_node on node idx, which
      inserts kids[j] under acts[j]: the node is marked expanded, each new
      node goes to the end of the arena and into idx's dictionary. */
  function ExpandWith(nodes: seq<Node>, idx: nat, acts: seq<Action>, kids: seq<Node>, n: nat): (r: seq<Node>)
    requires idx < |nodes| && n <= |acts| == |kids|
    ensures |r| == |nodes| + n
  {
    nodes[idx := nodes[idx].(isExpanded := true, children := AssignAll(nodes[idx].children, acts, |nodes|, n))] + kids[..n]
  }

  /** One more step of expand_node. */
  lemma ExpandStep(nodes: seq<Node>, idx: nat, acts: seq<Action>, kids: seq<Node>, n: nat)
    requires idx < |nodes| && n < |acts| == |kids|
    ensures var prev := ExpandWith(nodes, idx, acts, kids, n);
      ExpandWith(nodes, idx, acts, kids, n + 1)
        == prev[idx := prev[idx].(children := Assign(prev[idx].children, acts[n], |prev|))] + [kids[n]]
  {
  }

  /** The node expand_node builds from apply_action's result for the j-th
      valid action is the j-th fresh child. */
  lemma FreshChild(s: State, idx: nat, policy: Policy, j: nat, res: Result<State>)
    requires j < |ValidActions(s)| && res == Apply(s, ValidActions(s)[j])
    ensures res.Ok? && ValidActions(s)[j].WellFormed() && 0 <= ToIndex(ValidActions(s)[j]) <= 64
    ensures NewNode(res.value, Some(idx), policy[ToIndex(ValidActions(s)[j])]) == FreshChildren(s, idx, policy)[j]
  {
    ValidActionIndex(s, ValidActions(s)[j]);
    ValidActionApplies(s, ValidActions(s)[j]);
  }

  /** expand_node as a whole. */
  ghost function Expanded(nodes: seq<Node>, idx: nat, policy: Policy): (r: seq<Node>)
    requires idx < |nodes|
    ensures |r| == |nodes| + |ValidActions(nodes[idx].state)|
  {
    var s := nodes[idx].state;
    ExpandWith(nodes, idx, ValidActions(s), FreshChildren(s, idx, policy), |ValidActions(s)|)
  }

  /** Expansion touches only node idx, and there only the flag and the
      dictionary. */
  lemma ExpandFrame(nodes: seq<Node>, idx: nat, acts: seq<Action>, kids: seq<Node>, n: nat)
    requires idx < |nodes| && n <= |acts| == |kids|
    ensures var r := ExpandWith(nodes, idx, acts, kids, n);
      && (forall k :: 0 <= k < |nodes| && k != idx ==> r[k] == nodes[k])
      && r[idx] == nodes[idx].(isExpanded := true, children := r[idx].children)
      && (forall j :: 0 <= j < n ==> r[|nodes| + j] == kids[j])
  {
  }

  /** The stores of expand_node keep a dictionary's entries distinct when
      the new nodes are not in it yet, and leave it non-empty once one store
      is done. */
  lemma {:induction false} AssignAllDistinct(ch: seq<(Action, nat)>, acts: seq<Action>, base: nat, n: nat)
    requires n <= |acts| && DistinctEntries(ch)
    requires forall j :: 0 <= j < |ch| ==> ch[j].1 < base
    ensures var r := AssignAll(ch, acts, base, n);
      && DistinctEntries(r)
      && (forall j :: 0 <= j < |r| ==> r[j].1 < base + n)
      && (n >= 1 || ch != [] ==> r != [])
    decreases n
  {
    if n > 0 {
      AssignAllDistinct(ch, acts, base, n - 1);
      var prev := AssignAll(ch, acts, base, n - 1);
      assert AssignAll(ch, acts, base, n) == Assign(prev, acts[n - 1], base + n - 1);
      AssignDistinct(prev, acts[n - 1], base + n - 1);
      AssignBelow(prev, acts[n - 1], base + n - 1, base + n);
    }
  }

  /** Assigning a node below a bound to a dictionary whose nodes are below
      it leaves a non-empty dictionary whose nodes are all below it. */
  lemma AssignBelow(ch: seq<(Action, nat)>, a: Action, c: nat, bound: nat)
    requires c < bound && forall j :: 0 <= j < |ch| ==> ch[j].1 < bound
    ensures Assign(ch, a, c) != []
    ensures forall j :: 0 <= j < |Assign(ch, a, c)| ==> Assign(ch, a, c)[j].1 < bound
  {
  }

  /** After the stores of expand_node every node below base in the
      dictionary was in it before. */
  lemma {:induction false} AssignAllOld(ch: seq<(Action, nat)>, acts: seq<Action>, base: nat, n: nat)
    requires n <= |acts|
    ensures var r := AssignAll(ch, acts, base, n);
      forall j :: 0 <= j < |r| && r[j].1 < base ==> exists k :: 0 <= k < |ch| && r[j].1 == ch[k].1
    decreases n
  {
    if n > 0 {
      AssignAllOld(ch, acts, base, n - 1);
      var prev := AssignAll(ch, acts, base, n - 1);
      AssignFrom(prev, acts[n - 1], base + n - 1);
      var r := AssignAll(ch, acts, base, n);
      assert r == Assign(prev, acts[n - 1], base + n - 1);
      forall j | 0 <= j < |r| && r[j].1 < base
        ensures exists k :: 0 <= k < |ch| && r[j].1 == ch[k].1
      {
        var i :| 0 <= i < |prev| && r[j].1 == prev[i].1;
        assert prev[i].1 < base;
        assert 0 <= i < |AssignAll(ch, acts, base, n - 1)| && AssignAll(ch, acts, base, n - 1)[i].1 < base;
        var k :| 0 <= k < |ch| && prev[i].1 == ch[k].1;
      }
    }
  }

  /** Expansion with fresh leaves as children keeps the links, and the
      flags everywhere but at idx; once one child is in, idx has children. */
  lemma ExpandLinks(nodes: seq<Node>, idx: nat, acts: seq<Action>, kids: seq<Node>, n: nat)
    requires Links(nodes) && Flags(nodes, idx) && idx < |nodes| && n <= |acts| == |kids|
    requires forall j :: 0 <= j < |kids| ==> kids[j].children == [] && !kids[j].isExpanded && kids[j].parent == Some(idx)
    ensures var r := ExpandWith(nodes, idx, acts, kids, n);
      && Links(r) && Flags(r, idx)
      && (n >= 1 || nodes[idx].children != [] ==> r[idx].children != [])
  {
    var r := ExpandWith(nodes, idx, acts, kids, n);
    var ch := nodes[idx].children;
    AssignAllDistinct(ch, acts, |nodes|, n);
    AssignAllOld(ch, acts, |nodes|, n);
    ExpandFrame(nodes, idx, acts, kids, n);
    assert forall c :: 0 <= c < |nodes| ==> r[c].parent == nodes[c].parent;
    forall k | |nodes| <= k < |r|
      ensures r[k].children == []
    {
      assert r[k] == kids[k - |nodes|];
    }
    forall k, j | 0 <= k < |r| && 0 <= j < |r[k].children|
      ensures k < r[k].children[j].1 < |r| && r[r[k].children[j].1].parent == Some(k)
    {
      var e := r[k].children[j].1;
      if k == idx {
        if e < |nodes| {
          var i :| 0 <= i < |ch| && e == ch[i].1;
          assert nodes[k].children[i].1 == e;
        } else {
          assert r[e] == kids[e - |nodes|];
        }
      } else if k < |nodes| {
        assert r[k] == nodes[k];
      }
    }
    forall k | 0 <= k < |r|
      ensures DistinctEntries(r[k].children)
    {
      if k >= |nodes| {
        assert r[k] == kids[k - |nodes|];
      }
    }
    forall k | 0 <= k < |r| && k != idx
      ensures r[k].isExpanded <==> r[k].children != []
    {
      if k >= |nodes| {
        assert r[k] == kids[k - |nodes|];
      }
    }
  }

  /** Expanding a node of a search tree gives a search tree. */
  lemma ExpandedShape(nodes: seq<Node>, idx: nat, policy: Policy)
    requires TreeShape(nodes) && idx < |nodes|
    ensures TreeShape(Expanded(nodes, idx, policy))
    ensures Expanded(nodes, idx, policy)[idx].isExpanded
  {
    var s := nodes[idx].state;
    ValidActionsPass(s);
    FreshKids(s, idx, policy);
    ExpandLinks(nodes, idx, ValidActions(s), FreshChildren(s, idx, policy), |ValidActions(s)|);
    ExpandFrame(nodes, idx, ValidActions(s), FreshChildren(s, idx, policy), |ValidActions(s)|);
  }

  /** The stores of expand_node into an empty dictionary, with distinct
      actions, list them in order, the j-th pointing at base + j. */
  lemma {:induction false} AssignAllFresh(acts: seq<Action>, base: nat, n: nat)
    requires n <= |acts|
    requires forall i, j :: 0 <= i < j < |acts| ==> acts[i] != acts[j]
    ensures var ch := AssignAll([], acts, base, n);
      |ch| == n && forall j :: 0 <= j < n ==> ch[j] == (acts[j], base + j)
    decreases n
  {
    if n > 0 {
      AssignAllFresh(acts, base, n - 1);
      var ch := AssignAll([], acts, base, n - 1);
      forall j | 0 <= j < |ch|
        ensures ch[j].0 != acts[n - 1]
      {
        assert ch[j].0 == acts[j];
      }
      AssignNew(ch, acts[n - 1], base + n - 1);
    }
  }

  /** expand_node on a node without children (as every unexpanded node
      is): the node is marked expanded and its dictionary lists the valid
      actions in order, the j-th pointing at position |nodes| + j, where the
      fresh node for that action sits: its successor state, parent idx, the
      policy's prior for the action, and no visits, value or children.
      Every other node is unchanged. */
  lemma ExpandFresh(nodes: seq<Node>, idx: nat, policy: Policy)
    requires idx < |nodes| && nodes[idx].children == []
    ensures var r := Expanded(nodes, idx, policy);
            var s := nodes[idx].state;
            var acts := ValidActions(s);
      && r[idx] == nodes[idx].(isExpanded := true, children := Slots(acts, |nodes|))
      && |r| == |nodes| + |acts|
      && (forall j :: 0 <= j < |acts| ==> r[|nodes| + j] == ChildFor(s, idx, policy, acts[j]))
      && (forall k :: 0 <= k < |nodes| && k != idx ==> r[k] == nodes[k])
  {
    var s := nodes[idx].state;
    var acts := ValidActions(s);
    var kids := FreshChildren(s, idx, policy);
    ExpandFrame(nodes, idx, acts, kids, |acts|);
    ExpandFreshRoot(nodes, idx, policy);
    forall j | 0 <= j < |acts|
      ensures Expanded(nodes, idx, policy)[|nodes| + j] == ChildFor(s, idx, policy, acts[j])
    {
      assert Expanded(nodes, idx, policy)[|nodes| + j] == kids[j];
    }
  }

  /** The dictionary that lists acts in order, the j-th pointing at
      position base + j. */
  function Slots(acts: seq<Action>, base: nat): (r: seq<(Action, nat)>)
    ensures |r| == |acts| && forall j :: 0 <= j < |acts| ==> r[j] == (acts[j], base + j)
  {
    seq(|acts|, j requires 0 <= j < |acts| => (acts[j], base + j))
  }

  /** The expanded node's own entry, for any distinct actions. */
  lemma ExpandRootWith(nodes: seq<Node>, idx: nat, acts: seq<Action>, kids: seq<Node>)
    requires idx < |nodes| && |acts| == |kids| && nodes[idx].children == []
    requires forall i, j :: 0 <= i < j < |acts| ==> acts[i] != acts[j]
    ensures ExpandWith(nodes, idx, acts, kids, |acts|)[idx]
      == nodes[idx].(isExpanded := true, children := Slots(acts, |nodes|))
  {
    AssignAllFresh(acts, |nodes|, |acts|);
    assert AssignAll([], acts, |nodes|, |acts|) == Slots(acts, |nodes|);
  }

  /** The expanded node's own entry in ExpandFresh. */
  lemma ExpandFreshRoot(nodes: seq<Node>, idx: nat, policy: Policy)
    requires idx < |nodes| && nodes[idx].children == []
    ensures Expanded(nodes, idx, policy)[idx]
      == nodes[idx].(isExpanded := true, children := Slots(ValidActions(nodes[idx].state), |nodes|))
  {
    var s := nodes[idx].state;
    ValidActionsDistinct(s);
    ExpandRootWith(nodes, idx, ValidActions(s), FreshChildren(s, idx, policy));
  }

  // ---------------------------------------------------------------------
  // backpropagate, specified

  /** The value a node on the path receives: as is when its player is p,
      negated otherwise. */
  function Signed(n: Node, p: Player, value: real): real {
    if n.state.player == p then value else -value
  }

  /** A node after one more visit. */
  function Once(n: Node, p: Player, value: real): Node {
    n.(visitCount := n.visitCount + 1, totalValue := n.totalValue + Signed(n, p, value))
  }

  /** The arena once backpropagate's reverse walk has visited path[i..],
      the last node first. */
  function WalkBack(nodes: seq<Node>, path: seq<nat>, i: nat, p: Player, value: real): (r: seq<Node>)
    requires i <= |path| && forall j :: 0 <= j < |path| ==> path[j] < |nodes|
    ensures |r| == |nodes|
    decreases |path| - i
  {
    if i == |path| then nodes
    else
      var prev := WalkBack(nodes, path, i + 1, p, value);
      prev[path[i] := Once(prev[path[i]], p, value)]
  }

  /** backpropagate, the whole walk, signed by the player at the path's
      start. */
  function Backpropagated(nodes: seq<Node>, path: seq<nat>, value: real): (r: seq<Node>)
    requires forall j :: 0 <= j < |path| ==> path[j] < |nodes|
    ensures |r| == |nodes|
  {
    if path == [] then nodes else WalkBack(nodes, path, 0, nodes[path[0]].state.player, value)
  }

  /** On a path without repetitions the walk visits each of its nodes once
      and leaves the others alone. */
  lemma {:induction false} WalkBackOnce(nodes: seq<Node>, path: seq<nat>, i: nat, p: Player, value: real)
    requires i <= |path| && forall j :: 0 <= j < |path| ==> path[j] < |nodes|
    requires forall j1, j2 :: 0 <= j1 < j2 < |path| ==> path[j1] != path[j2]
    ensures forall m :: 0 <= m < |nodes| ==>
      WalkBack(nodes, path, i, p, value)[m] == if m in path[i..] then Once(nodes[m], p, value) else nodes[m]
    decreases |path| - i
  {
    if i < |path| {
      WalkBackOnce(nodes, path, i + 1, p, value);
      assert path[i..] == [path[i]] + path[i + 1..];
      assert path[i] !in path[i + 1..] by {
        forall j | i + 1 <= j < |path|
          ensures path[j] != path[i]
        {
        }
      }
    }
  }

  /** backpropagate on a path without repetitions: each node on the path
      gains exactly one visit and the value, negated unless its player is
      the one at the path's start; every other node is unchanged. */
  lemma BackpropagatedOnce(nodes: seq<Node>, path: seq<nat>, value: real)
    requires forall j :: 0 <= j < |path| ==> path[j] < |nodes|
    requires forall j1, j2 :: 0 <= j1 < j2 < |path| ==> path[j1] != path[j2]
    ensures var r := Backpropagated(nodes, path, value);
      forall m :: 0 <= m < |nodes| ==>
        if m in path then
          r[m] == nodes[m].(visitCount := nodes[m].visitCount + 1,
                            totalValue := nodes[m].totalValue +
                              (if nodes[m].state.player == nodes[path[0]].state.player then value else -value))
        else r[m] == nodes[m]
  {
    if path != [] {
      WalkBackOnce(nodes, path, 0, nodes[path[0]].state.player, value);
      assert path[0..] == path;
    }
  }

  /** Two arenas with the same links and flags have the same shape. */
  lemma SameShape(a: seq<Node>, b: seq<Node>)
    requires |a| == |b|
    requires forall m :: 0 <= m < |a| ==>
      a[m].parent == b[m].parent && a[m].children == b[m].children && a[m].isExpanded == b[m].isExpanded
    ensures TreeShape(a) ==> TreeShape(b)
  {
  }

  // ---------------------------------------------------------------------
  // Counting visits below the root

  /** How many of the nodes a dictionary points at lie on the path. */
  function Hits(path: seq<nat>, ch: seq<(Action, nat)>): nat {
    if ch == [] then 0 else Hits(path, ch[..|ch| - 1]) + (if ch[|ch| - 1].1 in path then 1 else 0)
  }

  /** Adding one visit to each node on the path adds the hits to the
      children's visits. */
  lemma {:induction false} ChildVisitsOnce(a: seq<Node>, b: seq<Node>, path: seq<nat>, ch: seq<(Action, nat)>)
    requires |a| == |b| && forall j :: 0 <= j < |ch| ==> ch[j].1 < |a|
    requires forall m :: 0 <= m < |a| ==> b[m].visitCount == a[m].visitCount + (if m in path then 1 else 0)
    ensures ChildVisits(b, ch) == ChildVisits(a, ch) + Hits(path, ch)
    decreases |ch|
  {
    if ch != [] {
      ChildVisitsOnce(a, b, path, ch[..|ch| - 1]);
    }
  }

  /** The children's visits depend only on the children's counts. */
  lemma {:induction false} ChildVisitsSame(a: seq<Node>, b: seq<Node>, ch: seq<(Action, nat)>)
    requires forall j :: 0 <= j < |ch| ==> ch[j].1 < |a| && ch[j].1 < |b|
    requires forall j :: 0 <= j < |ch| ==> a[ch[j].1].visitCount == b[ch[j].1].visitCount
    ensures ChildVisits(a, ch) == ChildVisits(b, ch)
    decreases |ch|
  {
    if ch != [] {
      ChildVisitsSame(a, b, ch[..|ch| - 1]);
    }
  }

  /** No child on the path: no hits. */
  lemma {:induction false} HitsNone(path: seq<nat>, ch: seq<(Action, nat)>)
    requires forall j :: 0 <= j < |ch| ==> ch[j].1 !in path
    ensures Hits(path, ch) == 0
    decreases |ch|
  {
    if ch != [] {
      HitsNone(path, ch[..|ch| - 1]);
    }
  }

  /** Exactly one child, x, on the path: one hit. */
  lemma {:induction false} HitsOnce(path: seq<nat>, ch: seq<(Action, nat)>, x: nat)
    requires DistinctEntries(ch)
    requires exists j :: 0 <= j < |ch| && ch[j].1 == x
    requires forall j :: 0 <= j < |ch| ==> (ch[j].1 in path <==> ch[j].1 == x)
    ensures Hits(path, ch) == 1
    decreases |ch|
  {
    var n := |ch| - 1;
    var pre := ch[..n];
    if ch[n].1 == x {
      forall j | 0 <= j < |pre|
        ensures pre[j].1 !in path
      {
        assert ch[j].1 != ch[n].1;
      }
      HitsNone(path, pre);
    } else {
      var j :| 0 <= j < |ch| && ch[j].1 == x;
      assert pre[j].1 == x;
      HitsOnce(path, pre, x);
    }
  }

  // ---------------------------------------------------------------------
  // Simulation paths

  /** The shape of a selection path: it starts at the root, each node on it
      is expanded, not terminal, and has the next one among its children,
      and the last node is unexpanded or terminal. */
  ghost predicate Descent(nodes: seq<Node>, path: seq<nat>) {
    && |path| >= 1 && path[0] == 0
    && (forall j :: 0 <= j < |path| ==> path[j] < |nodes|)
    && (forall j :: 0 <= j < |path| - 1 ==>
          nodes[path[j]].isExpanded && !IsTerminal(nodes[path[j]].state) && IsChild(nodes, path[j], path[j + 1]))
    && (!nodes[path[|path| - 1]].isExpanded || IsTerminal(nodes[path[|path| - 1]].state))
  }

  /** Along a selection path the node numbers strictly increase. */
  lemma {:induction false} DescentIncreasing(nodes: seq<Node>, path: seq<nat>, i: nat, j: nat)
    requires Links(nodes) && Descent(nodes, path) && i < j < |path|
    ensures path[i] < path[j]
    decreases j - i
  {
    assert IsChild(nodes, path[j - 1], path[j]);
    if i < j - 1 {
      DescentIncreasing(nodes, path, i, j - 1);
    }
  }

  /** A selection path visits each node at most once. */
  lemma DescentDistinct(nodes: seq<Node>, path: seq<nat>)
    requires Links(nodes) && Descent(nodes, path)
    ensures forall i, j :: 0 <= i < j < |path| ==> path[i] != path[j]
  {
    forall i, j | 0 <= i < j < |path|
      ensures path[i] != path[j]
    {
      DescentIncreasing(nodes, path, i, j);
    }
  }

  /** Beyond the second node, a selection path leaves the root's children
      behind: such a node's parent is an earlier, non-root node. */
  lemma DeepNotRootChild(nodes: seq<Node>, path: seq<nat>, i: nat)
    requires Links(nodes) && Descent(nodes, path) && 2 <= i < |path|
    ensures nodes[path[i]].parent != Some(0)
  {
    DescentIncreasing(nodes, path, 0, i - 1);
    assert IsChild(nodes, path[i - 1], path[i]);
  }

  /** A selection path from an expanded root passes through exactly one of
      the root's children, unless the root is terminal, when it passes
      through none. */
  lemma RootHits(nodes: seq<Node>, path: seq<nat>)
    requires TreeShape(nodes) && Descent(nodes, path) && nodes[0].isExpanded
    ensures forall j :: 0 <= j < |nodes[0].children| ==> nodes[0].children[j].1 < |nodes|
    ensures Hits(path, nodes[0].children) == if IsTerminal(nodes[0].state) then 0 else 1
  {
    var ch := nodes[0].children;
    if IsTerminal(nodes[0].state) {
      assert |path| == 1;
      forall j | 0 <= j < |ch|
        ensures ch[j].1 !in path
      {
        assert ch[j].1 != path[0];
      }
      HitsNone(path, ch);
    } else {
      assert |path| >= 2;
      var x := path[1];
      assert IsChild(nodes, 0, x);
      forall j | 0 <= j < |ch|
        ensures ch[j].1 in path <==> ch[j].1 == x
      {
        var c := ch[j].1;
        if c in path {
          var i :| 0 <= i < |path| && path[i] == c;
          if i >= 2 {
            DeepNotRootChild(nodes, path, i);
          }
        }
      }
      HitsOnce(path, ch, x);
    }
  }

  /** Fresh children have no visits. */
  lemma {:induction false} ChildVisitsZero(nodes: seq<Node>, ch: seq<(Action, nat)>)
    requires forall j :: 0 <= j < |ch| ==> ch[j].1 < |nodes| && nodes[ch[j].1].visitCount == 0
    ensures ChildVisits(nodes, ch) == 0
    decreases |ch|
  {
    if ch != [] {
      ChildVisitsZero(nodes, ch[..|ch| - 1]);
    }
  }

  /** What search keeps between simulations, after sim of them: a search
      tree whose root holds the initial state, is expanded with one child
      per valid action in order, has sim visits, and whose children share
      sim visits, none when the root is terminal. */
  ghost predicate SearchInv(nodes: seq<Node>, s: State, rootCh: seq<(Action, nat)>, sim: nat) {
    && TreeShape(nodes) && |nodes| >= 1
    && nodes[0].state == s && nodes[0].children == rootCh && nodes[0].isExpanded
    && nodes[0].visitCount == sim
    && |rootCh| == |ValidActions(s)|
    && (forall j :: 0 <= j < |rootCh| ==> rootCh[j].0 == ValidActions(s)[j])
    && ChildVisits(nodes, rootCh) == if IsTerminal(s) then 0 else sim
  }

  /** One simulation of search: selection along path, expansion of a
      non-terminal leaf, backpropagation.  The tree keeps its shape, the
      root keeps its state and children and gains one visit, and the
      root's children gain one visit between them, none when the root is
      terminal. */
  lemma SimulationStep(nodes0: seq<Node>, s: State, rootCh: seq<(Action, nat)>, sim: nat,
                       path: seq<nat>, policy: Policy, nodes1: seq<Node>, value: real, nodes2: seq<Node>)
    requires SearchInv(nodes0, s, rootCh, sim) && Descent(nodes0, path)
    requires nodes1 == if IsTerminal(nodes0[path[|path| - 1]].state) then nodes0
                       else Expanded(nodes0, path[|path| - 1], policy)
    requires nodes2 == Backpropagated(nodes1, path, value)
    ensures SearchInv(nodes2, s, rootCh, sim + 1)
  {
    LeafExpansion(nodes0, path, policy, nodes1);
    PathBackup(nodes0, path, nodes1, value, nodes2);
  }

  /** The evaluation phase: expanding a non-terminal leaf keeps the shape
      and changes neither the root nor any visit count. */
  lemma LeafExpansion(nodes0: seq<Node>, path: seq<nat>, policy: Policy, nodes1: seq<Node>)
    requires TreeShape(nodes0) && |nodes0| >= 1 && nodes0[0].isExpanded && Descent(nodes0, path)
    requires nodes1 == if IsTerminal(nodes0[path[|path| - 1]].state) then nodes0
                       else Expanded(nodes0, path[|path| - 1], policy)
    ensures TreeShape(nodes1) && |nodes1| >= |nodes0| && nodes1[0] == nodes0[0]
    ensures forall k :: 0 <= k < |nodes0| ==> nodes1[k].visitCount == nodes0[k].visitCount
  {
    var leaf := path[|path| - 1];
    if !IsTerminal(nodes0[leaf].state) {
      var s := nodes0[leaf].state;
      ExpandedShape(nodes0, leaf, policy);
      ExpandFrame(nodes0, leaf, ValidActions(s), FreshChildren(s, leaf, policy), |ValidActions(s)|);
      if |path| >= 2 {
        DescentIncreasing(nodes0, path, 0, |path| - 1);
      }
    }
  }

  /** The backpropagation phase along a selection path of the tree before
      expansion. */
  lemma PathBackup(nodes0: seq<Node>, path: seq<nat>, nodes1: seq<Node>, value: real, nodes2: seq<Node>)
    requires TreeShape(nodes0) && |nodes0| >= 1 && nodes0[0].isExpanded && Descent(nodes0, path)
    requires TreeShape(nodes1) && |nodes1| >= |nodes0| && nodes1[0] == nodes0[0]
    requires forall k :: 0 <= k < |nodes0| ==> nodes1[k].visitCount == nodes0[k].visitCount
    requires nodes2 == Backpropagated(nodes1, path, value)
    ensures TreeShape(nodes2) && |nodes2| >= |nodes0|
    ensures nodes2[0].state == nodes0[0].state && nodes2[0].children == nodes0[0].children
    ensures nodes2[0].isExpanded && nodes2[0].visitCount == nodes0[0].visitCount + 1
    ensures forall j :: 0 <= j < |nodes0[0].children| ==> nodes0[0].children[j].1 < |nodes0|
    ensures ChildVisits(nodes2, nodes0[0].children)
         == ChildVisits(nodes0, nodes0[0].children) + (if IsTerminal(nodes0[0].state) then 0 else 1)
  {
    var ch := nodes0[0].children;
    DescentDistinct(nodes0, path);
    BackpropagatedOnce(nodes1, path, value);
    SameShape(nodes1, nodes2);
    RootHits(nodes0, path);
    ChildVisitsSame(nodes1, nodes0, ch);
    ChildVisitsOnce(nodes1, nodes2, path, ch);
  }

  /** search's first step: the root expanded with the network's policy is
      a search tree whose root has one unvisited child per valid action, in
      order. */
  lemma RootExpansion(s: State, policy: Policy, nodes: seq<Node>)
    requires nodes == Expanded([NewNode(s, None, 0.0)], 0, policy)
    ensures TreeShape(nodes) && |nodes| >= 1
    ensures nodes[0].state == s && nodes[0].isExpanded && nodes[0].visitCount == 0
    ensures |nodes[0].children| == |ValidActions(s)|
    ensures forall j :: 0 <= j < |nodes[0].children| ==> nodes[0].children[j].0 == ValidActions(s)[j]
    ensures ChildVisits(nodes, nodes[0].children) == 0
  {
    ValidActionsPass(s);
    ValidActionsDistinct(s);
    FreshKids(s, 0, policy);
    RootWithShape(s, ValidActions(s), FreshChildren(s, 0, policy), nodes);
    RootWithChildren(s, ValidActions(s), FreshChildren(s, 0, policy), nodes);
  }

  /** The same for any distinct actions, at least one, and fresh leaves:
      the shape ... */
  lemma RootWithShape(s: State, acts: seq<Action>, kids: seq<Node>, nodes: seq<Node>)
    requires 1 <= |acts| == |kids|
    requires forall j :: 0 <= j < |kids| ==>
      kids[j].children == [] && !kids[j].isExpanded && kids[j].parent == Some(0)
    requires nodes == ExpandWith([NewNode(s, None, 0.0)], 0, acts, kids, |acts|)
    ensures TreeShape(nodes) && |nodes| >= 1
    ensures nodes[0].state == s && nodes[0].isExpanded && nodes[0].visitCount == 0
  {
    var start := [NewNode(s, None, 0.0)];
    ExpandLinks(start, 0, acts, kids, |acts|);
    ExpandFrame(start, 0, acts, kids, |acts|);
  }

  /** ... and the root's dictionary. */
  lemma RootWithChildren(s: State, acts: seq<Action>, kids: seq<Node>, nodes: seq<Node>)
    requires |acts| == |kids|
    requires forall i, j :: 0 <= i < j < |acts| ==> acts[i] != acts[j]
    requires forall j :: 0 <= j < |kids| ==> kids[j].visitCount == 0
    requires nodes == ExpandWith([NewNode(s, None, 0.0)], 0, acts, kids, |acts|)
    ensures nodes[0].children == Slots(acts, 1)
    ensures ChildVisits(nodes, nodes[0].children) == 0
  {
    AssignAllFresh(acts, 1, |acts|);
    var ch := nodes[0].children;
    assert ch == Slots(acts, 1);
    forall j | 0 <= j < |ch|
      ensures ch[j].1 < |nodes| && nodes[ch[j].1].visitCount == 0
    {
      assert ch[j].1 == 1 + j;
      assert nodes[1 + j] == kids[j];
    }
    ChildVisitsZero(nodes, ch);
  }

  /** Those facts are where search starts. */
  lemma SearchStart(nodes: seq<Node>, s: State)
    requires TreeShape(nodes) && |nodes| >= 1
    requires nodes[0].state == s && nodes[0].isExpanded && nodes[0].visitCount == 0
    requires |nodes[0].children| == |ValidActions(s)|
    requires forall j :: 0 <= j < |nodes[0].children| ==> nodes[0].children[j].0 == ValidActions(s)[j]
    requires ChildVisits(nodes, nodes[0].children) == 0
    ensures SearchInv(nodes, s, nodes[0].children, 0)
  {
  }

  lemma NonNegProduct(x: real, y: real)
    requires x >= 0.0 && y >= 0.0
    ensures x * y >= 0.0
  {
  }

  // ---------------------------------------------------------------------
  // The search object

  /** The MCTS object: the network's predict, math.sqrt and the
      configuration's c_puct and num_simulations. */
  class MCTS {
    const predict: State -> (Policy, real)
    const sqrt: real -> real
    const cPuct: real
    const numSimulations: nat

    constructor(predict: State -> (Policy, real), sqrt: real -> real, cPuct: real, numSimulations: nat)
      ensures this.predict == predict && this.sqrt == sqrt
      ensures this.cPuct == cPuct && this.numSimulations == numSimulations
    {
      this.predict := predict;
      this.sqrt := sqrt;
      this.cPuct := cPuct;
      this.numSimulations := numSimulations;
    }

    /** ucb_score: the child's mean value plus the exploration bonus
        c_puct * P * sqrt(N(parent)) / (1 + N(child)). */
    function UcbScore(parent: Node, child: Node): real {
      MeanValue(child) + cPuct * child.prior * sqrt(parent.visitCount as real) / (1 + child.visitCount) as real
    }

    /** With a non-negative c_puct, prior and square root the exploration
        bonus is non-negative, so the score is at least the mean value; a
        zero prior leaves only the mean value. */
    lemma UcbBonus(parent: Node, child: Node)
      ensures cPuct >= 0.0 && child.prior >= 0.0 && sqrt(parent.visitCount as real) >= 0.0 ==>
        UcbScore(parent, child) >= MeanValue(child)
      ensures child.prior == 0.0 ==> UcbScore(parent, child) == MeanValue(child)
    {
      var d := (1 + child.visitCount) as real;
      var x := cPuct * child.prior;
      var y := x * sqrt(parent.visitCount as real);
      if cPuct >= 0.0 && child.prior >= 0.0 && sqrt(parent.visitCount as real) >= 0.0 {
        NonNegProduct(cPuct, child.prior);
        NonNegProduct(x, sqrt(parent.visitCount as real));
        assert y / d >= 0.0;
      }
      if child.prior == 0.0 {
        assert x == 0.0;
        assert y == 0.0;
      }
    }

    /** The UCB score of entry j of node k's dictionary. */
    ghost function Score(nodes: seq<Node>, k: nat, j: nat): real
      requires Links(nodes) && k < |nodes| && j < |nodes[k].children|
    {
      UcbScore(nodes[k], nodes[nodes[k].children[j].1])
    }

    /** Entry j is the first entry of node k's dictionary with the largest
        UCB score. */
    ghost predicate FirstBest(nodes: seq<Node>, k: nat, j: nat)
      requires Links(nodes) && k < |nodes|
    {
      && j < |nodes[k].children|
      && (forall i :: 0 <= i < |nodes[k].children| ==> Score(nodes, k, i) <= Score(nodes, k, j))
      && (forall i :: 0 <= i < j ==> Score(nodes, k, i) < Score(nodes, k, j))
    }

    /** select_child: the first child with the largest UCB score, and None
        for a node with no children. */
    method SelectChild(tree: Tree, idx: nat) returns (action: Option<Action>, child: Option<nat>, ghost pos: nat)
      requires Links(tree.nodes) && idx < |tree.nodes|
      ensures tree.nodes[idx].children == [] ==> action.None? && child.None?
      ensures tree.nodes[idx].children != [] ==>
        && FirstBest(tree.nodes, idx, pos)
        && action == Some(tree.nodes[idx].children[pos].0)
        && child == Some(tree.nodes[idx].children[pos].1)
    {
      var node := tree.nodes[idx];
      var bestScore: Option<real> := None;
      action, child, pos := None, None, 0;
      var i := 0;
      while i < |node.children|
        invariant 0 <= i <= |node.children|
        invariant i == 0 ==> bestScore.None? && action.None? && child.None?
        invariant i > 0 ==>
          && pos < i && bestScore == Some(Score(tree.nodes, idx, pos))
          && action == Some(node.children[pos].0) && child == Some(node.children[pos].1)
          && (forall k :: 0 <= k < i ==> Score(tree.nodes, idx, k) <= Score(tree.nodes, idx, pos))
          && (forall k :: 0 <= k < pos ==> Score(tree.nodes, idx, k) < Score(tree.nodes, idx, pos))
      {
        var (a, c) := node.children[i];
        var ucb := UcbScore(node, tree.nodes[c]);
        if bestScore.None? || ucb > bestScore.value {
          bestScore := Some(ucb);
          action := Some(a);
          child := Some(c);
          pos := i;
        }
        i := i + 1;
      }
    }

    /** Node c is the child select_child picks at node k. */
    ghost predicate Chosen(nodes: seq<Node>, k: nat, c: nat)
      requires Links(nodes) && k < |nodes|
    {
      exists j: nat :: FirstBest(nodes, k, j) && nodes[k].children[j].1 == c
    }

    /** The selection loop: from the root, follow select_child while the
        node is expanded and not terminal. */
    method SelectLeaf(tree: Tree) returns (path: seq<nat>)
      requires tree.Valid()
      ensures Descent(tree.nodes, path)
      ensures forall j :: 0 <= j < |path| - 1 ==> Chosen(tree.nodes, path[j], path[j + 1])
    {
      var node := 0;
      path := [node];
      while tree.nodes[node].isExpanded && !IsTerminal(tree.nodes[node].state)
        invariant node < |tree.nodes| && |path| >= 1 && path[|path| - 1] == node
        invariant ChosenPrefix(tree.nodes, path)
        decreases |tree.nodes| - node
      {
        var action, child, pos := SelectChild(tree, node);
        var next := child.value;
        assert IsChild(tree.nodes, node, next);
        assert Chosen(tree.nodes, node, next);
        ChosenPrefixExtend(tree.nodes, path, next);
        node := next;
        path := path + [node];
      }
    }

    /** A path from the root along which every step is the child
        select_child picks at an expanded, non-terminal node. */
    ghost predicate ChosenPrefix(nodes: seq<Node>, path: seq<nat>)
      requires Links(nodes)
    {
      && |path| >= 1 && path[0] == 0
      && (forall j :: 0 <= j < |path| ==> path[j] < |nodes|)
      && (forall j :: 0 <= j < |path| - 1 ==>
            nodes[path[j]].isExpanded && !IsTerminal(nodes[path[j]].state)
            && IsChild(nodes, path[j], path[j + 1]) && Chosen(nodes, path[j], path[j + 1]))
    }

    /** One more select_child step extends a chosen path. */
    lemma ChosenPrefixExtend(nodes: seq<Node>, path: seq<nat>, next: nat)
      requires Links(nodes) && ChosenPrefix(nodes, path) && next < |nodes|
      requires nodes[path[|path| - 1]].isExpanded && !IsTerminal(nodes[path[|path| - 1]].state)
      requires IsChild(nodes, path[|path| - 1], next) && Chosen(nodes, path[|path| - 1], next)
      ensures ChosenPrefix(nodes, path + [next])
    {
      var path' := path + [next];
      forall j | 0 <= j < |path'| - 1
        ensures nodes[path'[j]].isExpanded && !IsTerminal(nodes[path'[j]].state)
        ensures IsChild(nodes, path'[j], path'[j + 1]) && Chosen(nodes, path'[j], path'[j + 1])
      {
        if j < |path| - 1 {
          assert path'[j] == path[j] && path'[j + 1] == path[j + 1];
        }
      }
    }

    /** expand_node: mark the node expanded and give it a fresh child per
        valid action, with the policy's prior for that action. */
    method ExpandNode(tree: Tree, idx: nat, policy: Policy)
      requires idx < |tree.nodes|
      modifies tree
      ensures tree.nodes == Expanded(old(tree.nodes), idx, policy)
    {
      var s := tree.nodes[idx].state;
      tree.nodes := tree.nodes[idx := tree.nodes[idx].(isExpanded := true)];
      var validActions := GetValidActions(s);
      ghost var kids := FreshChildren(s, idx, policy);
      var i := 0;
      while i < |validActions|
        invariant 0 <= i <= |validActions| && validActions == ValidActions(s)
        invariant tree.nodes == ExpandWith(old(tree.nodes), idx, validActions, kids, i)
      {
        var action := validActions[i];
        ValidActionIndex(s, action);
        ValidActionApplies(s, action);
        var actionIndex := ToIndex(action);
        var childState := ApplyAction(s, action);
        var prior := policy[actionIndex];
        var childNode := NewNode(childState.value, Some(idx), prior);
        FreshChild(s, idx, policy, i, childState);
        var node := tree.nodes[idx];
        ExpandStep(old(tree.nodes), idx, validActions, kids, i);
        tree.nodes := tree.nodes[idx := node.(children := Assign(node.children, action, |tree.nodes|))] + [childNode];
        i := i + 1;
      }
    }

    /** backpropagate: walk the path from its end, adding a visit to each
        node and the value, negated for nodes whose player is not the one
        at the path's start. */
    method Backpropagate(tree: Tree, path: seq<nat>, value: real)
      requires forall j :: 0 <= j < |path| ==> path[j] < |tree.nodes|
      modifies tree
      ensures tree.nodes == Backpropagated(old(tree.nodes), path, value)
    {
      if path == [] {
        return;
      }
      var rootPlayer := tree.nodes[path[0]].state.player;
      var i := |path|;
      while i > 0
        invariant 0 <= i <= |path|
        invariant tree.nodes == WalkBack(old(tree.nodes), path, i, rootPlayer, value)
      {
        i := i - 1;
        var k := path[i];
        var node := tree.nodes[k];
        var delta := if node.state.player == rootPlayer then value else -value;
        tree.nodes := tree.nodes[k := node.(visitCount := node.visitCount + 1, totalValue := node.totalValue + delta)];
      }
    }

    /** search: expand the root with the network's policy, run
        num_simulations simulations, and return get_action_probs of the
        root.  The root ends with exactly num_simulations visits and its
        children, keyed by the valid actions in order, share them all
        unless the root is terminal; the distribution is defined exactly
        when that share is positive, and then sums to one. */
    method Search(initialState: State) returns (probs: Result<seq<(Action, real)>>, ghost arena: seq<Node>)
      ensures TreeShape(arena) && |arena| >= 1 && arena[0].state == initialState
      ensures arena[0].visitCount == numSimulations
      ensures |arena[0].children| == |ValidActions(initialState)|
      ensures forall j :: 0 <= j < |arena[0].children| ==> arena[0].children[j].0 == ValidActions(initialState)[j]
      ensures ChildVisits(arena, arena[0].children) == if IsTerminal(initialState) then 0 else numSimulations
      ensures probs == GetActionProbs(arena, 0)
      ensures probs.Err? <==> numSimulations == 0 || IsTerminal(initialState)
      ensures probs.Err? ==> probs.error == ZeroDivision
      ensures probs.Ok? ==>
        && |probs.value| == |ValidActions(initialState)|
        && (forall j :: 0 <= j < |probs.value| ==> probs.value[j].0 == ValidActions(initialState)[j])
        && ProbSum(probs.value) == 1.0
    {
      var tree := new Tree(initialState);
      var rootPrediction := predict(initialState);
      ExpandNode(tree, 0, rootPrediction.0);
      RootExpansion(initialState, rootPrediction.0, tree.nodes);
      SearchStart(tree.nodes, initialState);
      ghost var rootCh := tree.nodes[0].children;
      var sim := 0;
      while sim < numSimulations
        invariant sim <= numSimulations
        invariant SearchInv(tree.nodes, initialState, rootCh, sim)
      {
        ghost var nodes0 := tree.nodes;
        var path := SelectLeaf(tree);
        var node := path[|path| - 1];
        var value: real;
        ghost var policy := rootPrediction.0;
        if !IsTerminal(tree.nodes[node].state) {
          var prediction := predict(tree.nodes[node].state);
          policy := prediction.0;
          ExpandNode(tree, node, prediction.0);
          value := prediction.1;
        } else {
          value := GetReward(tree.nodes[node].state).value;
        }
        ghost var nodes1 := tree.nodes;
        Backpropagate(tree, path, value);
        SimulationStep(nodes0, initialState, rootCh, sim, path, policy, nodes1, value, tree.nodes);
        sim := sim + 1;
      }
      arena := tree.nodes;
      probs := GetActionProbs(tree.nodes, 0);
      if probs.Ok? {
        ActionProbsSum(tree.nodes, 0);
      }
    }
  }
}
