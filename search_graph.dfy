/** The MCTS search graph of search.py, as values: an arena of nodes addressed by
    handles (indices) plus the `states` dictionary from a state to its handle.
    The class MCTS in module Search holds these two values as fields and changes
    them only through the operations below, whose lemmas keep Inv. */
module SearchGraph {
  import opened Wrappers
  import opened Numerics
  import opened Puzzle

  /** Node in search.py: the state, the network's policy P and value, the
      neighbour slots (neighs[a] is the handle reached by action a, once known),
      the visit counts N, the action values W, the virtual losses L and is_leaf. */
  datatype Node<S> = Node(state: S, P: seq<real>, value: real, neighs: seq<Option<nat>>,
                          N: seq<int>, W: seq<real>, L: seq<real>, isLeaf: bool)

  /** The from_node and action_idx arguments of Node.__init__. */
  datatype Origin = Origin(parent: nat, parentValue: real, action: nat)

  ghost predicate Shaped<S>(n: Node<S>, dim: nat) {
    |n.neighs| == dim && |n.N| == dim && |n.W| == dim && |n.L| == dim
  }

  /** Node.__init__: a fresh node is a leaf with zero statistics and no
      neighbours, except that a node reached from a parent by action a points
      back to the parent at slot rev_action(a), with the parent's value in W there. */
  function NewNode<S(!new)>(cube: Cube<S>, state: S, policy: seq<real>, value: real, from: Option<Origin>): (n: Node<S>)
    requires from.Some? ==> cube.revAction(from.value.action) < cube.actionDim
    ensures n.state == state && n.P == policy && n.value == value && n.isLeaf
    ensures Shaped(n, cube.actionDim)
    ensures forall a :: 0 <= a < cube.actionDim ==> n.N[a] == 0 && n.L[a] == 0.0
    ensures forall a :: 0 <= a < cube.actionDim && !(from.Some? && a == cube.revAction(from.value.action)) ==>
              n.neighs[a] == None && n.W[a] == 0.0
    ensures from.Some? ==>
              && n.neighs[cube.revAction(from.value.action)] == Some(from.value.parent)
              && n.W[cube.revAction(from.value.action)] == from.value.parentValue
  {
    var back := if from.Some? then cube.revAction(from.value.action) else cube.actionDim;
    Node(state, policy, value,
         seq(cube.actionDim, a => if from.Some? && a == back then Some(from.value.parent) else None),
         seq(cube.actionDim, _ => 0),
         seq(cube.actionDim, a => if from.Some? && a == back then from.value.parentValue else 0.0),
         seq(cube.actionDim, _ => 0.0),
         true)
  }

  /** Slot a of node h is either empty or a correct edge: it leads to a node
      whose state is rotate(state, a) and whose slot rev_action(a) points back. */
  ghost predicate EdgeOk<S(!new)>(cube: Cube<S>, nodes: seq<Node<S>>, h: nat, a: nat) {
    && h < |nodes| && a < |nodes[h].neighs|
    && (nodes[h].neighs[a].Some? ==>
          var g := nodes[h].neighs[a].value;
          && g < |nodes|
          && nodes[g].state == cube.rotate(nodes[h].state, a)
          && cube.revAction(a) < |nodes[g].neighs|
          && nodes[g].neighs[cube.revAction(a)] == Some(h))
  }

  /** A node that is no longer a leaf has every neighbour slot filled. */
  ghost predicate Expanded<S>(n: Node<S>) {
    !n.isLeaf ==> forall a :: 0 <= a < |n.neighs| ==> n.neighs[a].Some?
  }

  /** `states` is a bijection between the registered states and the handles. */
  ghost predicate Registered<S>(nodes: seq<Node<S>>, states: map<S, nat>) {
    && (forall s :: s in states ==> states[s] < |nodes| && nodes[states[s]].state == s)
    && (forall h :: 0 <= h < |nodes| ==> nodes[h].state in states && states[nodes[h].state] == h)
  }

  /** The graph invariant: shapes, bidirectional consistent edges,
      "non-leaf implies all slots filled", and deduplication by state. */
  ghost predicate Inv<S(!new)>(cube: Cube<S>, nodes: seq<Node<S>>, states: map<S, nat>) {
    && cube.Valid()
    && (forall h :: 0 <= h < |nodes| ==> Shaped(nodes[h], cube.actionDim) && Expanded(nodes[h]))
    && (forall h, a :: 0 <= h < |nodes| && 0 <= a < cube.actionDim ==> EdgeOk(cube, nodes, h, a))
    && Registered(nodes, states)
  }

  /** Two arenas with the same graph structure; only N, W, L may differ. */
  ghost predicate SameStructure<S>(nodes: seq<Node<S>>, nodes': seq<Node<S>>) {
    && |nodes'| == |nodes|
    && forall h :: 0 <= h < |nodes| ==>
         && nodes'[h].state == nodes[h].state && nodes'[h].P == nodes[h].P
         && nodes'[h].value == nodes[h].value && nodes'[h].neighs == nodes[h].neighs
         && nodes'[h].isLeaf == nodes[h].isLeaf && |nodes'[h].N| == |nodes[h].N|
         && |nodes'[h].W| == |nodes[h].W| && |nodes'[h].L| == |nodes[h].L|
  }

  lemma SameStructureInv<S(!new)>(cube: Cube<S>, nodes: seq<Node<S>>, nodes': seq<Node<S>>, states: map<S, nat>)
    requires Inv(cube, nodes, states) && SameStructure(nodes, nodes')
    ensures Inv(cube, nodes', states)
  {
    forall h, a | 0 <= h < |nodes'| && 0 <= a < cube.actionDim
      ensures EdgeOk(cube, nodes', h, a)
    {
      assert EdgeOk(cube, nodes, h, a);
    }
    forall h | 0 <= h < |nodes'| ensures Shaped(nodes'[h], cube.actionDim) && Expanded(nodes'[h]) {
      assert Shaped(nodes[h], cube.actionDim) && Expanded(nodes[h]);
    }
  }

  function SetNeigh<S>(nodes: seq<Node<S>>, h: nat, a: nat, g: nat): (m: seq<Node<S>>)
    requires h < |nodes| && a < |nodes[h].neighs|
    ensures |m| == |nodes|
  {
    nodes[h := nodes[h].(neighs := nodes[h].neighs[a := Some(g)])]
  }

  /** The link of a rediscovered state in expand_leaf: leaf.neighs[a] = known
      node, then known.neighs[rev_action(a)] = leaf. */
  function Link<S(!new)>(cube: Cube<S>, nodes: seq<Node<S>>, h: nat, a: nat, g: nat): (m: seq<Node<S>>)
    requires h < |nodes| && g < |nodes| && a < |nodes[h].neighs| && cube.revAction(a) < |nodes[g].neighs|
    ensures |m| == |nodes|
    ensures |m[h].neighs| == |nodes[h].neighs| && |m[g].neighs| == |nodes[g].neighs|
    ensures m[h].neighs[a] == Some(g) && m[g].neighs[cube.revAction(a)] == Some(h)
  {
    var m1 := SetNeigh(nodes, h, a, g);
    SetNeigh(m1, g, cube.revAction(a), h)
  }

  /** The slot contents after a link. */
  lemma LinkSlot<S(!new)>(cube: Cube<S>, nodes: seq<Node<S>>, h: nat, a: nat, g: nat, x: nat, b: nat)
    requires h < |nodes| && g < |nodes| && a < |nodes[h].neighs| && cube.revAction(a) < |nodes[g].neighs|
    requires x < |nodes| && b < |nodes[x].neighs|
    ensures var m := Link(cube, nodes, h, a, g);
      && |m[x].neighs| == |nodes[x].neighs|
      && m[x].neighs[b] == (if x == g && b == cube.revAction(a) then Some(h)
                            else if x == h && b == a then Some(g) else nodes[x].neighs[b])
  {
  }

  /** A slot that the link fills was empty or already held the same edge. */
  lemma LinkAgrees<S(!new)>(cube: Cube<S>, nodes: seq<Node<S>>, states: map<S, nat>, h: nat, a: nat, g: nat)
    requires Inv(cube, nodes, states)
    requires h < |nodes| && g < |nodes| && a < cube.actionDim
    requires nodes[g].state == cube.rotate(nodes[h].state, a)
    ensures Shaped(nodes[h], cube.actionDim) && Shaped(nodes[g], cube.actionDim) && cube.revAction(a) < cube.actionDim
    ensures nodes[h].neighs[a] in {None, Some(g)}
    ensures nodes[g].neighs[cube.revAction(a)] in {None, Some(h)}
  {
    assert Shaped(nodes[h], cube.actionDim) && Shaped(nodes[g], cube.actionDim);
    if nodes[h].neighs[a].Some? {
      assert EdgeOk(cube, nodes, h, a);
      var x := nodes[h].neighs[a].value;
      assert states[nodes[x].state] == x;
    }
    var r := cube.revAction(a);
    if nodes[g].neighs[r].Some? {
      assert EdgeOk(cube, nodes, g, r);
      var y := nodes[g].neighs[r].value;
      cube.Undo(nodes[h].state, a);
      assert states[nodes[y].state] == y;
    }
  }

  lemma LinkEdgeOk<S(!new)>(cube: Cube<S>, nodes: seq<Node<S>>, states: map<S, nat>, h: nat, a: nat, g: nat, x: nat, b: nat)
    requires Inv(cube, nodes, states)
    requires h < |nodes| && g < |nodes| && a < cube.actionDim
    requires nodes[g].state == cube.rotate(nodes[h].state, a)
    requires x < |nodes| && b < cube.actionDim
    ensures EdgeOk(cube, Link(cube, nodes, h, a, g), x, b)
  {
    LinkAgrees(cube, nodes, states, h, a, g);
    var r := cube.revAction(a);
    var m := Link(cube, nodes, h, a, g);
    assert EdgeOk(cube, nodes, x, b);
    assert Shaped(nodes[x], cube.actionDim);
    LinkSlot(cube, nodes, h, a, g, x, b);
    if x == g && b == r {
      cube.Undo(nodes[h].state, a);
      LinkSlot(cube, nodes, h, a, g, h, a);
    } else if x == h && b == a {
      LinkSlot(cube, nodes, h, a, g, g, r);
    } else if nodes[x].neighs[b].Some? {
      var t := nodes[x].neighs[b].value;
      assert Shaped(nodes[t], cube.actionDim);
      assert cube.revAction(b) < cube.actionDim;
      LinkSlot(cube, nodes, h, a, g, t, cube.revAction(b));
    }
  }

  /** Linking a rediscovered neighbour keeps the invariant, fills slot a of h
      and slot rev_action(a) of g, and changes nothing else: a slot that was
      already filled held that same edge. */
  lemma LinkInv<S(!new)>(cube: Cube<S>, nodes: seq<Node<S>>, states: map<S, nat>, h: nat, a: nat, g: nat)
    requires Inv(cube, nodes, states)
    requires h < |nodes| && g < |nodes| && a < cube.actionDim
    requires nodes[g].state == cube.rotate(nodes[h].state, a)
    ensures Shaped(nodes[h], cube.actionDim) && Shaped(nodes[g], cube.actionDim) && cube.revAction(a) < cube.actionDim
    ensures Inv(cube, Link(cube, nodes, h, a, g), states)
    ensures Link(cube, nodes, h, a, g)[h].neighs[a] == Some(g)
    ensures Link(cube, nodes, h, a, g)[g].neighs[cube.revAction(a)] == Some(h)
    ensures LinkOnly(nodes, Link(cube, nodes, h, a, g), h)
  {
    LinkAgrees(cube, nodes, states, h, a, g);
    var r := cube.revAction(a);
    var m := Link(cube, nodes, h, a, g);
    forall x, b | 0 <= x < |m| && 0 <= b < cube.actionDim
      ensures EdgeOk(cube, m, x, b)
    {
      LinkEdgeOk(cube, nodes, states, h, a, g, x, b);
    }
    LinkShapes(cube, nodes, states, h, a, g);
    LinkFills(cube, nodes, h, a, g);
  }

  lemma LinkShapes<S(!new)>(cube: Cube<S>, nodes: seq<Node<S>>, states: map<S, nat>, h: nat, a: nat, g: nat)
    requires Inv(cube, nodes, states)
    requires h < |nodes| && g < |nodes| && a < cube.actionDim
    ensures cube.revAction(a) < |nodes[g].neighs|
    ensures forall x :: 0 <= x < |nodes| ==>
      Shaped(Link(cube, nodes, h, a, g)[x], cube.actionDim) && Expanded(Link(cube, nodes, h, a, g)[x])
  {
    assert Shaped(nodes[g], cube.actionDim);
    var m := Link(cube, nodes, h, a, g);
    forall x | 0 <= x < |m| ensures Shaped(m[x], cube.actionDim) && Expanded(m[x]) {
      assert Shaped(nodes[x], cube.actionDim) && Expanded(nodes[x]);
      forall b | 0 <= b < cube.actionDim ensures nodes[x].neighs[b].Some? ==> m[x].neighs[b].Some? {
        LinkSlot(cube, nodes, h, a, g, x, b);
      }
    }
  }

  /** A link only fills slots that were empty or already held that edge. */
  lemma LinkFills<S(!new)>(cube: Cube<S>, nodes: seq<Node<S>>, h: nat, a: nat, g: nat)
    requires h < |nodes| && g < |nodes| && a < |nodes[h].neighs| && cube.revAction(a) < |nodes[g].neighs|
    requires nodes[h].neighs[a] in {None, Some(g)}
    requires nodes[g].neighs[cube.revAction(a)] in {None, Some(h)}
    ensures LinkOnly(nodes, Link(cube, nodes, h, a, g), h)
  {
    var m := Link(cube, nodes, h, a, g);
    forall x | 0 <= x < |nodes| ensures m[x] == nodes[x].(neighs := m[x].neighs) && |m[x].neighs| == |nodes[x].neighs| {
    }
    forall x, b | 0 <= x < |nodes| && 0 <= b < |nodes[x].neighs|
      ensures m[x].neighs[b] == nodes[x].neighs[b] || (nodes[x].neighs[b] == None && (x == h || m[x].neighs[b] == Some(h)))
    {
      LinkSlot(cube, nodes, h, a, g, x, b);
    }
  }

  /** nodes' differs from nodes only by filling empty slots, either of the
      leaf or with an edge back to the leaf. */
  ghost predicate LinkOnly<S>(nodes: seq<Node<S>>, nodes': seq<Node<S>>, leaf: nat) {
    && |nodes'| == |nodes|
    && (forall x :: 0 <= x < |nodes| ==>
          var n', n := nodes'[x], nodes[x];
          n'.state == n.state && n'.P == n.P && n'.value == n.value && n'.N == n.N
          && n'.W == n.W && n'.L == n.L && n'.isLeaf == n.isLeaf && |n'.neighs| == |n.neighs|)
    && (forall x, b :: 0 <= x < |nodes| && 0 <= b < |nodes[x].neighs| ==>
          nodes'[x].neighs[b] == nodes[x].neighs[b] ||
          (nodes[x].neighs[b] == None && (x == leaf || nodes'[x].neighs[b] == Some(leaf))))
  }

  lemma LinkOnlyTrans<S>(n0: seq<Node<S>>, n1: seq<Node<S>>, n2: seq<Node<S>>, leaf: nat)
    requires LinkOnly(n0, n1, leaf) && LinkOnly(n1, n2, leaf)
    ensures LinkOnly(n0, n2, leaf)
  {
    forall x, b | 0 <= x < |n0| && 0 <= b < |n0[x].neighs|
      ensures n2[x].neighs[b] == n0[x].neighs[b] ||
              (n0[x].neighs[b] == None && (x == leaf || n2[x].neighs[b] == Some(leaf)))
    {
      assert |n1[x].neighs| == |n0[x].neighs|;
    }
  }

  lemma LinkOnlyRefl<S>(nodes: seq<Node<S>>, leaf: nat)
    ensures LinkOnly(nodes, nodes, leaf)
  {
  }

  /** The creation of a node for an unknown successor in expand_leaf:
      Node(state, p, v, leaf, action), leaf.neighs[action] = new node,
      states[state] = new node. */
  function AddChild<S(==,!new)>(cube: Cube<S>, nodes: seq<Node<S>>, states: map<S, nat>, h: nat, a: nat,
                                policy: seq<real>, value: real): (r: (seq<Node<S>>, map<S, nat>))
    requires h < |nodes| && a < |nodes[h].neighs| && cube.revAction(a) < cube.actionDim
    ensures |r.0| == |nodes| + 1
  {
    var t := cube.rotate(nodes[h].state, a);
    var child := NewNode(cube, t, policy, value, Some(Origin(h, nodes[h].value, a)));
    (SetNeigh(nodes + [child], h, a, |nodes|), states[t := |nodes|])
  }

  /** Adding a node for a successor state that is not registered keeps the
      invariant; the new node is NewNode's child of h and is registered
      under its state; apart from slot a of h nothing else changes. */
  lemma AddChildInv<S(!new)>(cube: Cube<S>, nodes: seq<Node<S>>, states: map<S, nat>, h: nat, a: nat,
                                policy: seq<real>, value: real)
    requires Inv(cube, nodes, states)
    requires h < |nodes| && a < cube.actionDim
    requires cube.rotate(nodes[h].state, a) !in states
    ensures Shaped(nodes[h], cube.actionDim) && cube.revAction(a) < cube.actionDim
    ensures nodes[h].neighs[a] == None
    ensures var (m, st) := AddChild(cube, nodes, states, h, a, policy, value);
      && Inv(cube, m, st)
      && st == states[cube.rotate(nodes[h].state, a) := |nodes|]
  {
    assert Shaped(nodes[h], cube.actionDim);
    assert EdgeOk(cube, nodes, h, a);
    var (m, st) := AddChild(cube, nodes, states, h, a, policy, value);
    AddChildEdges(cube, nodes, states, h, a, policy, value);
    forall x | 0 <= x < |m| ensures Shaped(m[x], cube.actionDim) && Expanded(m[x]) {
      if x < |nodes| {
        assert Shaped(nodes[x], cube.actionDim) && Expanded(nodes[x]);
      }
    }
    assert forall s :: s in states ==> s != cube.rotate(nodes[h].state, a);
  }

  /** The slots after AddChild: slot a of h holds the new node, the new node
      is NewNode's child, everything else is as before. */
  lemma AddChildSlots<S(!new)>(cube: Cube<S>, nodes: seq<Node<S>>, states: map<S, nat>, h: nat, a: nat,
                               policy: seq<real>, value: real)
    requires h < |nodes| && a < |nodes[h].neighs| && cube.revAction(a) < cube.actionDim
    requires nodes[h].neighs[a] == None
    ensures var m := AddChild(cube, nodes, states, h, a, policy, value).0;
      && m[|nodes|] == NewNode(cube, cube.rotate(nodes[h].state, a), policy, value, Some(Origin(h, nodes[h].value, a)))
      && m[h] == nodes[h].(neighs := nodes[h].neighs[a := Some(|nodes|)])
      && (forall y :: 0 <= y < |nodes| && y != h ==> m[y] == nodes[y])
      && m[h].neighs[a] == Some(|nodes|)
      && LinkOnly(nodes, m[..|nodes|], h)
      && (forall x, b :: 0 <= x < |nodes| && 0 <= b < |nodes[x].neighs| && (x, b) != (h, a) ==>
            m[x].neighs[b] == nodes[x].neighs[b])
  {
    var m := AddChild(cube, nodes, states, h, a, policy, value).0;
    assert forall x :: 0 <= x < |nodes| ==> m[..|nodes|][x] == m[x];
  }

  /** Every edge is still correct after AddChild. */
  lemma AddChildEdges<S(!new)>(cube: Cube<S>, nodes: seq<Node<S>>, states: map<S, nat>, h: nat, a: nat,
                               policy: seq<real>, value: real)
    requires Inv(cube, nodes, states)
    requires h < |nodes| && a < cube.actionDim
    requires cube.rotate(nodes[h].state, a) !in states
    ensures Shaped(nodes[h], cube.actionDim) && cube.revAction(a) < cube.actionDim
    ensures var m := AddChild(cube, nodes, states, h, a, policy, value).0;
      forall x, b :: 0 <= x < |m| && 0 <= b < cube.actionDim ==> EdgeOk(cube, m, x, b)
  {
    assert Shaped(nodes[h], cube.actionDim);
    assert EdgeOk(cube, nodes, h, a);
    var n := |nodes|;
    var r := cube.revAction(a);
    AddChildSlots(cube, nodes, states, h, a, policy, value);
    var m := AddChild(cube, nodes, states, h, a, policy, value).0;
    forall x, b | 0 <= x < |m| && 0 <= b < cube.actionDim
      ensures EdgeOk(cube, m, x, b)
    {
      if x == n {
        if b == r {
          cube.Undo(nodes[h].state, a);
        }
      } else {
        assert EdgeOk(cube, nodes, x, b);
        assert Shaped(nodes[x], cube.actionDim);
        if x == h && b == a {
        } else if nodes[x].neighs[b].Some? {
          var y := nodes[x].neighs[b].value;
          assert Shaped(nodes[y], cube.actionDim);
          assert y != h || cube.revAction(b) != a;
        }
      }
    }
  }

  /** A graph holding only the root node, as MCTS.search creates it. */
  lemma RootInv<S(!new)>(cube: Cube<S>, s: S, policy: seq<real>, value: real)
    requires cube.Valid()
    ensures Inv(cube, [NewNode(cube, s, policy, value, None)], map[s := 0])
  {
    var nodes := [NewNode(cube, s, policy, value, None)];
    assert forall h, a :: 0 <= h < |nodes| && 0 <= a < cube.actionDim ==> nodes[h].neighs[a] == None;
  }

  /** The statistics update of search_leaf at node h and action a:
      N[a] += 1 and L[a] += nu; nothing else changes. */
  function Bump<S>(nodes: seq<Node<S>>, h: nat, a: nat, nu: real): (m: seq<Node<S>>)
    requires h < |nodes| && a < |nodes[h].N| && a < |nodes[h].L|
    ensures SameStructure(nodes, m)
    ensures forall x, b :: 0 <= x < |nodes| && 0 <= b < |nodes[x].N| ==>
              m[x].N[b] == nodes[x].N[b] + (if x == h && b == a then 1 else 0)
    ensures forall x, b :: 0 <= x < |nodes| && 0 <= b < |nodes[x].L| ==>
              m[x].L[b] == nodes[x].L[b] + (if x == h && b == a then nu else 0.0)
    ensures forall x :: 0 <= x < |nodes| ==> m[x].W == nodes[x].W
  {
    nodes[h := nodes[h].(N := nodes[h].N[a := nodes[h].N[a] + 1], L := nodes[h].L[a := nodes[h].L[a] + nu])]
  }

  /** The backup of expand_leaf at one neighbour: W[b] = v at node x. */
  function SetW<S>(nodes: seq<Node<S>>, x: nat, b: nat, v: real): (m: seq<Node<S>>)
    requires x < |nodes| && b < |nodes[x].W|
    ensures SameStructure(nodes, m)
    ensures forall y :: 0 <= y < |nodes| ==> m[y].N == nodes[y].N && m[y].L == nodes[y].L
    ensures forall y, c :: 0 <= y < |nodes| && 0 <= c < |nodes[y].W| ==>
              m[y].W[c] == if y == x && c == b then v else nodes[y].W[c]
  {
    nodes[x := nodes[x].(W := nodes[x].W[b := v])]
  }

  /** leaf.is_leaf = False once every slot is filled keeps the invariant. */
  lemma MarkExpandedInv<S(!new)>(cube: Cube<S>, nodes: seq<Node<S>>, states: map<S, nat>, h: nat)
    requires Inv(cube, nodes, states) && h < |nodes|
    requires forall a :: 0 <= a < cube.actionDim ==> nodes[h].neighs[a].Some?
    ensures Inv(cube, nodes[h := nodes[h].(isLeaf := false)], states)
  {
    var m := nodes[h := nodes[h].(isLeaf := false)];
    forall x, a | 0 <= x < |m| && 0 <= a < cube.actionDim
      ensures EdgeOk(cube, m, x, a)
    {
      assert EdgeOk(cube, nodes, x, a);
    }
    assert Shaped(nodes[h], cube.actionDim);
  }

  /** The values of the neighbours of an expanded node, in slot order. */
  function NeighbourValues<S>(nodes: seq<Node<S>>, h: nat): (vs: seq<real>)
    requires h < |nodes|
    requires forall a :: 0 <= a < |nodes[h].neighs| ==>
               nodes[h].neighs[a].Some? && nodes[h].neighs[a].value < |nodes|
    ensures |vs| == |nodes[h].neighs|
    ensures forall a :: 0 <= a < |vs| ==> vs[a] == nodes[nodes[h].neighs[a].value].value
  {
    seq(|nodes[h].neighs|, a requires 0 <= a < |nodes[h].neighs| => nodes[nodes[h].neighs[a].value].value)
  }

  /** The neighbours of an expanded node are nodes of the graph. */
  lemma NeighbourBounds<S(!new)>(cube: Cube<S>, nodes: seq<Node<S>>, states: map<S, nat>, h: nat)
    requires Inv(cube, nodes, states) && h < |nodes|
    requires forall a :: 0 <= a < cube.actionDim ==> nodes[h].neighs[a].Some?
    ensures forall a :: 0 <= a < |nodes[h].neighs| ==> nodes[h].neighs[a].Some? && nodes[h].neighs[a].value < |nodes|
  {
    assert Shaped(nodes[h], cube.actionDim);
    forall a | 0 <= a < |nodes[h].neighs| ensures nodes[h].neighs[a].Some? && nodes[h].neighs[a].value < |nodes| {
      assert EdgeOk(cube, nodes, h, a);
    }
  }

  /** no_neighs in expand_leaf: the empty slots, in increasing order. */
  function EmptySlots(neighs: seq<Option<nat>>): seq<nat>
    decreases |neighs|
  {
    if neighs == [] then []
    else
      var n := |neighs| - 1;
      EmptySlots(neighs[..n]) + (if neighs[n].None? then [n] else [])
  }

  /** EmptySlots lists, in increasing order, exactly the empty slots. */
  lemma {:induction false} EmptySlotsSpec(neighs: seq<Option<nat>>, r: seq<nat>)
    requires r == EmptySlots(neighs)
    ensures forall k :: 0 <= k < |r| ==> r[k] < |neighs| && neighs[r[k]].None?
    ensures forall j, k :: 0 <= j < k < |r| ==> r[j] < r[k]
    ensures forall a :: 0 <= a < |neighs| && neighs[a].None? ==> a in r
    decreases |neighs|
  {
    if neighs != [] {
      var n := |neighs| - 1;
      EmptySlotsSpec(neighs[..n], EmptySlots(neighs[..n]));
    }
  }

  /** The positions q >= lo of noNeighs whose successor state is not
      registered, in increasing order: what unknown_neighs holds from lo on. */
  function Absent<S(!new)>(cube: Cube<S>, s: S, states: map<S, nat>, noNeighs: seq<nat>, lo: nat): seq<nat>
    decreases |noNeighs| - lo
  {
    if lo >= |noNeighs| then []
    else (if cube.rotate(s, noNeighs[lo]) !in states then [lo] else []) + Absent(cube, s, states, noNeighs, lo + 1)
  }

  /** Absent lists, in increasing order, exactly the positions from lo on
      whose successor is not registered. */
  lemma {:induction false} AbsentSpec<S(!new)>(cube: Cube<S>, s: S, states: map<S, nat>, noNeighs: seq<nat>, lo: nat,
                                               r: seq<nat>)
    requires r == Absent(cube, s, states, noNeighs, lo)
    ensures forall k :: 0 <= k < |r| ==> lo <= r[k] < |noNeighs| && cube.rotate(s, noNeighs[r[k]]) !in states
    ensures forall j, k :: 0 <= j < k < |r| ==> r[j] < r[k]
    ensures forall q :: lo <= q < |noNeighs| && cube.rotate(s, noNeighs[q]) !in states ==> q in r
    decreases |noNeighs| - lo
  {
    if lo < |noNeighs| {
      AbsentSpec(cube, s, states, noNeighs, lo + 1, Absent(cube, s, states, noNeighs, lo + 1));
    }
  }

  /** A scanned empty slot a of the leaf: its successor is not solved, and
      when that successor is registered the slot holds the edge to it. */
  ghost predicate Scanned<S(!new)>(cube: Cube<S>, ns: seq<Node<S>>, states: map<S, nat>, leaf: nat, a: nat)
    requires leaf < |ns| && a < |ns[leaf].neighs|
  {
    var t := cube.rotate(ns[leaf].state, a);
    !cube.isSolved(t) && (t in states ==> ns[leaf].neighs[a] == Some(states[t]))
  }

  lemma ScannedLink<S(!new)>(cube: Cube<S>, states: map<S, nat>, ns: seq<Node<S>>, ns': seq<Node<S>>,
                             leaf: nat, noNeighs: seq<nat>, i: nat)
    requires leaf < |ns| && LinkOnly(ns, ns', leaf) && i < |noNeighs|
    requires forall q :: 0 <= q < |noNeighs| ==> noNeighs[q] < |ns[leaf].neighs|
    requires forall q :: i < q < |noNeighs| ==> Scanned(cube, ns, states, leaf, noNeighs[q])
    requires var t := cube.rotate(ns[leaf].state, noNeighs[i]);
      !cube.isSolved(t) && (t in states ==> ns'[leaf].neighs[noNeighs[i]] == Some(states[t]))
    ensures forall q :: i <= q < |noNeighs| ==> Scanned(cube, ns', states, leaf, noNeighs[q])
  {
  }

  /** One step of the reversed scan of expand_leaf: an unregistered successor
      keeps position i in unknown_neighs ... */
  lemma AbsentKeep<S(!new)>(cube: Cube<S>, s: S, states: map<S, nat>, noNeighs: seq<nat>, i: nat, unknown: seq<nat>)
    requires i < |noNeighs| && unknown == StepRange(i + 1, 1) + Absent(cube, s, states, noNeighs, i + 1)
    requires cube.rotate(s, noNeighs[i]) !in states
    ensures unknown == StepRange(i, 1) + Absent(cube, s, states, noNeighs, i)
  {
    var r := StepRange(i, 1);
    assert StepRange(i + 1, 1) == r + [i];
  }

  /** ... and a registered one drops it (unknown_neighs.pop(i)). */
  lemma AbsentDrop<S(!new)>(cube: Cube<S>, s: S, states: map<S, nat>, noNeighs: seq<nat>, i: nat, unknown: seq<nat>)
    requires i < |noNeighs| && unknown == StepRange(i + 1, 1) + Absent(cube, s, states, noNeighs, i + 1)
    requires cube.rotate(s, noNeighs[i]) in states
    ensures i < |unknown| && unknown[..i] + unknown[i + 1..] == StepRange(i, 1) + Absent(cube, s, states, noNeighs, i)
  {
    var r := StepRange(i, 1);
    var rest := Absent(cube, s, states, noNeighs, i + 1);
    assert StepRange(i + 1, 1) == r + [i];
    assert unknown[..i] == r;
    assert unknown[i + 1..] == rest;
  }

  /** How often the descent (visited nodes, chosen actions) passed node h by action a. */
  function Visits(visited: seq<nat>, path: seq<nat>, h: nat, a: nat): nat
    requires |visited| == |path|
    decreases |path|
  {
    if path == [] then 0
    else
      var n := |path| - 1;
      Visits(visited[..n], path[..n], h, a) + (if visited[n] == h && path[n] == a then 1 else 0)
  }

  /** nu added count times: the virtual loss a slot collects over count visits. */
  function Repeated(nu: real, count: nat): real
    decreases count
  {
    if count == 0 then 0.0 else Repeated(nu, count - 1) + nu
  }

  lemma {:induction false} RepeatedIsProduct(nu: real, count: nat)
    ensures Repeated(nu, count) == count as real * nu
    decreases count
  {
    if count > 0 {
      RepeatedIsProduct(nu, count - 1);
      assert (count - 1) as real * nu + nu == count as real * nu;
    }
  }

  /** Visits counts exactly the steps of the descent that took action a at h. */
  lemma {:induction false} VisitsSpec(visited: seq<nat>, path: seq<nat>, h: nat, a: nat)
    requires |visited| == |path|
    ensures Visits(visited, path, h, a) <= |path|
    ensures Visits(visited, path, h, a) == 0 <==> forall k :: 0 <= k < |path| ==> !(visited[k] == h && path[k] == a)
    decreases |path|
  {
    if path != [] {
      var n := |path| - 1;
      VisitsSpec(visited[..n], path[..n], h, a);
      assert forall k :: 0 <= k < n ==> visited[..n][k] == visited[k] && path[..n][k] == path[k];
    }
  }

  /** One more step of a descent adds one visit at its node and action. */
  lemma VisitsSnoc(visited: seq<nat>, path: seq<nat>, node: nat, action: nat, h: nat, a: nat)
    requires |visited| == |path|
    ensures Visits(visited + [node], path + [action], h, a) ==
              Visits(visited, path, h, a) + (if node == h && action == a then 1 else 0)
  {
    assert (visited + [node])[..|path|] == visited && (path + [action])[..|path|] == path;
  }

  /** The walk of search_leaf after following path from root: trail holds the
      nodes passed and then the current one, each passed node is a non-leaf
      whose slot on the path leads to the next, and the path replays from the
      root's state to the current node's state. */
  ghost predicate Walk<S(!new)>(cube: Cube<S>, ns: seq<Node<S>>, root: nat, path: seq<nat>, trail: seq<nat>) {
    && |trail| == |path| + 1 && trail[0] == root
    && (forall k :: 0 <= k < |trail| ==> trail[k] < |ns|)
    && (forall k :: 0 <= k < |path| ==>
          && !ns[trail[k]].isLeaf && path[k] < cube.actionDim && path[k] < |ns[trail[k]].neighs|
          && ns[trail[k]].neighs[path[k]] == Some(trail[k + 1]))
    && cube.Replay(ns[root].state, path) == ns[trail[|path|]].state
  }

  /** The statistics of search_leaf after passing the nodes visited by the
      actions path: N grew by the visits of each slot, L by nu per visit, W
      stayed. */
  ghost predicate Bumped<S>(nodes0: seq<Node<S>>, ns: seq<Node<S>>, nu: real, visited: seq<nat>, path: seq<nat>)
    requires |visited| == |path|
  {
    && SameStructure(nodes0, ns)
    && forall h, a :: 0 <= h < |ns| && 0 <= a < |ns[h].N| && a < |ns[h].L| && a < |nodes0[h].N| && a < |nodes0[h].L| ==>
         && ns[h].N[a] == nodes0[h].N[a] + Visits(visited, path, h, a)
         && ns[h].L[a] == nodes0[h].L[a] + Repeated(nu, Visits(visited, path, h, a))
         && ns[h].W == nodes0[h].W
  }

  lemma WalkStart<S(!new)>(cube: Cube<S>, ns: seq<Node<S>>, root: nat)
    requires root < |ns|
    ensures Walk(cube, ns, root, [], [root])
  {
  }

  /** Moving from the current non-leaf along a correct edge extends the walk;
      so does changing only statistics. */
  lemma WalkStep<S(!new)>(cube: Cube<S>, ns: seq<Node<S>>, m: seq<Node<S>>, root: nat, path: seq<nat>, trail: seq<nat>,
                          action: nat, next: nat)
    requires Walk(cube, ns, root, path, trail)
    requires !ns[trail[|path|]].isLeaf && action < cube.actionDim && action < |ns[trail[|path|]].neighs|
    requires ns[trail[|path|]].neighs[action] == Some(next) && next < |ns|
    requires ns[next].state == cube.rotate(ns[trail[|path|]].state, action)
    requires SameStructure(ns, m)
    ensures Walk(cube, m, root, path + [action], trail + [next])
  {
    cube.ReplaySnoc(ns[root].state, path, action);
  }

  lemma BumpedStart<S>(nodes: seq<Node<S>>, nu: real)
    ensures Bumped(nodes, nodes, nu, [], [])
  {
  }

  /** Bumping slot action of node adds one visit there. */
  lemma BumpedStep<S>(nodes0: seq<Node<S>>, ns: seq<Node<S>>, nu: real, visited: seq<nat>, path: seq<nat>,
                      node: nat, action: nat)
    requires |visited| == |path| && Bumped(nodes0, ns, nu, visited, path)
    requires node < |ns| && action < |ns[node].N| && action < |ns[node].L|
    ensures Bumped(nodes0, Bump(ns, node, action, nu), nu, visited + [node], path + [action])
  {
    var m := Bump(ns, node, action, nu);
    forall h, a | 0 <= h < |m| && 0 <= a < |m[h].N| && a < |m[h].L| && a < |nodes0[h].N| && a < |nodes0[h].L|
      ensures && m[h].N[a] == nodes0[h].N[a] + Visits(visited + [node], path + [action], h, a)
              && m[h].L[a] == nodes0[h].L[a] + Repeated(nu, Visits(visited + [node], path + [action], h, a))
    {
      VisitsSnoc(visited, path, node, action, h, a);
    }
  }

  /** The "Generate new states" loop of expand_leaf after k of its actions:
      child j is NewNode's child of the leaf by acts[j], with the network's
      output for its state, registered at handle |nodes0| + j, and in the
      leaf's slot acts[j]; the remaining successors are still unregistered;
      old nodes and old registrations are otherwise unchanged. */
  ghost predicate Created<S(!new)>(cube: Cube<S>, nodes0: seq<Node<S>>, states0: map<S, nat>,
                                   ns: seq<Node<S>>, st: map<S, nat>, leaf: nat, acts: seq<nat>,
                                   evaluate: S -> (seq<real>, real), k: nat) {
    && cube.Valid() && k <= |acts| && leaf < |nodes0| && |ns| == |nodes0| + k
    && (forall j :: 0 <= j < |acts| ==> acts[j] < cube.actionDim)
    && (forall x :: 0 <= x < |nodes0| ==>
          ns[x] == nodes0[x].(neighs := ns[x].neighs) && |ns[x].neighs| == |nodes0[x].neighs|)
    && (forall x, b :: 0 <= x < |nodes0| && 0 <= b < |nodes0[x].neighs| && (x != leaf || forall j :: 0 <= j < k ==> acts[j] != b) ==>
          ns[x].neighs[b] == nodes0[x].neighs[b])
    && (forall j :: 0 <= j < k ==>
          var t := cube.rotate(nodes0[leaf].state, acts[j]);
          && ns[|nodes0| + j] == NewNode(cube, t, evaluate(t).0, evaluate(t).1, Some(Origin(leaf, nodes0[leaf].value, acts[j])))
          && acts[j] < |ns[leaf].neighs| && ns[leaf].neighs[acts[j]] == Some(|nodes0| + j)
          && t in st && st[t] == |nodes0| + j)
    && (forall j :: k <= j < |acts| ==> cube.rotate(nodes0[leaf].state, acts[j]) !in st)
    && (forall t :: t in states0 ==> t in st && st[t] == states0[t])
  }

  lemma CreatedStart<S(!new)>(cube: Cube<S>, nodes: seq<Node<S>>, states: map<S, nat>, leaf: nat, acts: seq<nat>,
                              evaluate: S -> (seq<real>, real))
    requires Inv(cube, nodes, states) && leaf < |nodes|
    requires forall j :: 0 <= j < |acts| ==> acts[j] < cube.actionDim && cube.rotate(nodes[leaf].state, acts[j]) !in states
    ensures Created(cube, nodes, states, nodes, states, leaf, acts, evaluate, 0)
  {
  }

  /** Creating the child for acts[k]: distinct actions lead to distinct
      states, so the later successors stay unregistered. */
  lemma CreatedStep<S(!new)>(cube: Cube<S>, nodes0: seq<Node<S>>, states0: map<S, nat>,
                             ns: seq<Node<S>>, st: map<S, nat>, leaf: nat, acts: seq<nat>,
                             evaluate: S -> (seq<real>, real), k: nat)
    requires Inv(cube, ns, st) && Created(cube, nodes0, states0, ns, st, leaf, acts, evaluate, k) && k < |acts|
    requires forall i, j :: 0 <= i < j < |acts| ==> acts[i] < acts[j]
    ensures var t := cube.rotate(ns[leaf].state, acts[k]);
      && leaf < |ns| && acts[k] < |ns[leaf].neighs| && cube.revAction(acts[k]) < cube.actionDim
      && var r := AddChild(cube, ns, st, leaf, acts[k], evaluate(t).0, evaluate(t).1);
      && Inv(cube, r.0, r.1)
      && Created(cube, nodes0, states0, r.0, r.1, leaf, acts, evaluate, k + 1)
  {
    var t := cube.rotate(ns[leaf].state, acts[k]);
    var (p, v) := evaluate(t);
    AddChildInv(cube, ns, st, leaf, acts[k], p, v);
    AddChildSlots(cube, ns, st, leaf, acts[k], p, v);
    var r := AddChild(cube, ns, st, leaf, acts[k], p, v);
    CreatedOld(cube, nodes0, states0, ns, st, r.0, leaf, acts, evaluate, k);
    CreatedNew(cube, nodes0, states0, ns, st, r.0, r.1, leaf, acts, evaluate, k);
  }

  /** The old nodes after creating the child for acts[k]. */
  lemma CreatedOld<S(!new)>(cube: Cube<S>, nodes0: seq<Node<S>>, states0: map<S, nat>,
                            ns: seq<Node<S>>, st: map<S, nat>, m: seq<Node<S>>, leaf: nat, acts: seq<nat>,
                            evaluate: S -> (seq<real>, real), k: nat)
    requires Created(cube, nodes0, states0, ns, st, leaf, acts, evaluate, k) && k < |acts|
    requires |m| == |ns| + 1 && LinkOnly(ns, m[..|ns|], leaf)
    requires forall x, b :: 0 <= x < |ns| && 0 <= b < |ns[x].neighs| && (x, b) != (leaf, acts[k]) ==>
               m[x].neighs[b] == ns[x].neighs[b]
    ensures forall x :: 0 <= x < |nodes0| ==>
              m[x] == nodes0[x].(neighs := m[x].neighs) && |m[x].neighs| == |nodes0[x].neighs|
    ensures forall x, b :: 0 <= x < |nodes0| && 0 <= b < |nodes0[x].neighs| && (x != leaf || forall j :: 0 <= j < k + 1 ==> acts[j] != b) ==>
              m[x].neighs[b] == nodes0[x].neighs[b]
  {
    forall x | 0 <= x < |nodes0| ensures m[x] == nodes0[x].(neighs := m[x].neighs) && |m[x].neighs| == |nodes0[x].neighs| {
      assert m[..|ns|][x] == m[x];
    }
  }

  /** The children and registrations after creating the child for acts[k]. */
  lemma CreatedNew<S(!new)>(cube: Cube<S>, nodes0: seq<Node<S>>, states0: map<S, nat>,
                            ns: seq<Node<S>>, st: map<S, nat>, m: seq<Node<S>>, st': map<S, nat>, leaf: nat, acts: seq<nat>,
                            evaluate: S -> (seq<real>, real), k: nat)
    requires Created(cube, nodes0, states0, ns, st, leaf, acts, evaluate, k) && k < |acts|
    requires forall i, j :: 0 <= i < j < |acts| ==> acts[i] < acts[j]
    requires var t := cube.rotate(nodes0[leaf].state, acts[k]);
      && |m| == |ns| + 1 && st' == st[t := |ns|]
      && m[|ns|] == NewNode(cube, t, evaluate(t).0, evaluate(t).1, Some(Origin(leaf, nodes0[leaf].value, acts[k])))
      && acts[k] < |m[leaf].neighs| && m[leaf].neighs[acts[k]] == Some(|ns|)
    requires forall y :: 0 <= y < |ns| && y != leaf ==> m[y] == ns[y]
    requires forall b :: 0 <= b < |ns[leaf].neighs| && b != acts[k] ==>
               |m[leaf].neighs| == |ns[leaf].neighs| && m[leaf].neighs[b] == ns[leaf].neighs[b]
    ensures forall j :: 0 <= j < k + 1 ==>
              var t := cube.rotate(nodes0[leaf].state, acts[j]);
              && m[|nodes0| + j] == NewNode(cube, t, evaluate(t).0, evaluate(t).1, Some(Origin(leaf, nodes0[leaf].value, acts[j])))
              && acts[j] < |m[leaf].neighs| && m[leaf].neighs[acts[j]] == Some(|nodes0| + j)
              && t in st' && st'[t] == |nodes0| + j
    ensures forall j :: k + 1 <= j < |acts| ==> cube.rotate(nodes0[leaf].state, acts[j]) !in st'
    ensures forall t :: t in states0 ==> t in st' && st'[t] == states0[t]
  {
    var s := nodes0[leaf].state;
    forall j | k < j < |acts| ensures cube.rotate(s, acts[j]) != cube.rotate(s, acts[k]) {
      assert acts[k] < acts[j];
    }
  }

  /** The "Update W" loop of expand_leaf after the leaf's slots below a: every
      non-leaf neighbour x reached through such a slot rev_action(b) has
      W[b] = v; all other statistics are as in nodes0. */
  ghost predicate BackedUp<S(!new)>(cube: Cube<S>, nodes0: seq<Node<S>>, ns: seq<Node<S>>, leaf: nat, v: real, a: nat) {
    && SameStructure(nodes0, ns) && leaf < |ns|
    && (forall x :: 0 <= x < |ns| ==> ns[x].N == nodes0[x].N && ns[x].L == nodes0[x].L)
    && (forall x, b :: 0 <= x < |ns| && 0 <= b < |ns[x].W| ==>
          ns[x].W[b] == if cube.revAction(b) < a && cube.revAction(b) < |ns[leaf].neighs| && !ns[x].isLeaf
                           && ns[leaf].neighs[cube.revAction(b)] == Some(x) then v
                        else nodes0[x].W[b])
  }

  /** What one step of the "Update W" loop relies on: every node is shaped
      and every slot of the leaf holds a handle in range. */
  ghost predicate BackUpReady<S(!new)>(cube: Cube<S>, nodes0: seq<Node<S>>, leaf: nat) {
    && cube.Valid() && leaf < |nodes0|
    && (forall x :: 0 <= x < |nodes0| ==> Shaped(nodes0[x], cube.actionDim))
    && (forall a :: 0 <= a < |nodes0[leaf].neighs| ==>
          nodes0[leaf].neighs[a].Some? && nodes0[leaf].neighs[a].value < |nodes0|)
  }

  lemma InvBackUpReady<S(!new)>(cube: Cube<S>, nodes0: seq<Node<S>>, states: map<S, nat>, leaf: nat)
    requires Inv(cube, nodes0, states) && leaf < |nodes0|
    requires forall a :: 0 <= a < |nodes0[leaf].neighs| ==>
               nodes0[leaf].neighs[a].Some? && nodes0[leaf].neighs[a].value < |nodes0|
    ensures BackUpReady(cube, nodes0, leaf)
  {
  }

  lemma BackedUpStep<S(!new)>(cube: Cube<S>, nodes0: seq<Node<S>>, ns: seq<Node<S>>, ns': seq<Node<S>>,
                              leaf: nat, v: real, a: nat, g: nat)
    requires BackUpReady(cube, nodes0, leaf) && BackedUp(cube, nodes0, ns, leaf, v, a) && a < cube.actionDim
    requires ns[leaf].neighs[a] == Some(g) && g < |ns| && cube.revAction(a) < |ns[g].W|
    requires ns' == if ns[g].isLeaf then ns else SetW(ns, g, cube.revAction(a), v)
    ensures BackedUp(cube, nodes0, ns', leaf, v, a + 1)
  {
    assert Shaped(nodes0[leaf], cube.actionDim);
    assert Shaped(nodes0[g], cube.actionDim);
    forall x, b | 0 <= x < |ns'| && 0 <= b < |ns'[x].W|
      ensures ns'[x].W[b] == if cube.revAction(b) < a + 1 && cube.revAction(b) < |ns'[leaf].neighs| && !ns'[x].isLeaf
                               && ns'[leaf].neighs[cube.revAction(b)] == Some(x) then v
                            else nodes0[x].W[b]
    {
      assert Shaped(nodes0[x], cube.actionDim);
      if cube.revAction(b) == a {
        assert b == cube.revAction(a);
      }
    }
  }

  /** Within a step of the "Update W" loop: the slot holds a neighbour whose
      W has the slot rev_action(a). */
  lemma BackedUpSlot<S(!new)>(cube: Cube<S>, nodes0: seq<Node<S>>, ns: seq<Node<S>>, leaf: nat, v: real, a: nat)
    requires BackUpReady(cube, nodes0, leaf) && BackedUp(cube, nodes0, ns, leaf, v, a) && a < cube.actionDim
    ensures ns[leaf].neighs[a].Some? && ns[leaf].neighs[a].value < |ns|
    ensures cube.revAction(a) < |ns[ns[leaf].neighs[a].value].W|
  {
    assert Shaped(nodes0[leaf], cube.actionDim);
    assert Shaped(nodes0[ns[leaf].neighs[a].value], cube.actionDim);
  }

  /** The loop of the "Update W" section of expand_leaf on the arena: for
      each slot a of the leaf, unless the neighbour there is a leaf, set the
      neighbour's W at rev_action(a) to v. */
  method BackUpNeighbours<S(!new)>(cube: Cube<S>, nodes0: seq<Node<S>>, leaf: nat, v: real) returns (ns: seq<Node<S>>)
    requires BackUpReady(cube, nodes0, leaf)
    ensures BackedUp(cube, nodes0, ns, leaf, v, cube.actionDim)
  {
    ns := nodes0;
    var a := 0;
    while a < cube.actionDim
      invariant 0 <= a <= cube.actionDim && BackedUp(cube, nodes0, ns, leaf, v, a)
    {
      BackedUpSlot(cube, nodes0, ns, leaf, v, a);
      var neighbor := ns[leaf].neighs[a].value;
      ghost var before := ns;
      if !ns[neighbor].isLeaf {
        ns := SetW(ns, neighbor, cube.revAction(a), v);
      }
      BackedUpStep(cube, nodes0, before, ns, leaf, v, a, neighbor);
      a := a + 1;
    }
  }

  /** The "Update W" loop of expand_leaf done: every non-leaf node x whose
      slot b leads to the leaf has W[b] = v; nothing else changed. */
  ghost predicate WUpdated<S(!new)>(cube: Cube<S>, nodes0: seq<Node<S>>, ns: seq<Node<S>>, leaf: nat, v: real) {
    && SameStructure(nodes0, ns) && leaf < |ns|
    && (forall x :: 0 <= x < |ns| ==> ns[x].N == nodes0[x].N && ns[x].L == nodes0[x].L)
    && (forall x, b :: 0 <= x < |ns| && 0 <= b < |ns[x].W| && b < |ns[x].neighs| ==>
          ns[x].W[b] == if !ns[x].isLeaf && ns[x].neighs[b] == Some(leaf) then v else nodes0[x].W[b])
  }

  /** Once every slot is done, the neighbours updated are exactly the
      non-leaf nodes whose slot b leads to the leaf. */
  lemma BackedUpDone<S(!new)>(cube: Cube<S>, states: map<S, nat>, nodes0: seq<Node<S>>, ns: seq<Node<S>>,
                              leaf: nat, v: real)
    requires Inv(cube, nodes0, states) && BackedUp(cube, nodes0, ns, leaf, v, cube.actionDim)
    ensures Inv(cube, ns, states) && WUpdated(cube, nodes0, ns, leaf, v)
  {
    SameStructureInv(cube, nodes0, ns, states);
    forall x, b | 0 <= x < |ns| && 0 <= b < |ns[x].W| && b < |ns[x].neighs|
      ensures ns[x].W[b] == if !ns[x].isLeaf && ns[x].neighs[b] == Some(leaf) then v else nodes0[x].W[b]
    {
      assert Shaped(ns[x], cube.actionDim) && Shaped(ns[leaf], cube.actionDim);
      assert EdgeOk(cube, ns, x, b);
      assert EdgeOk(cube, ns, leaf, cube.revAction(b));
    }
  }

  /** no_neighs = no_neighs[unknown_neighs]: the empty slots kept after the scan. */
  function Pending(noNeighs: seq<nat>, unknown: seq<nat>): (acts: seq<nat>)
    requires forall k :: 0 <= k < |unknown| ==> unknown[k] < |noNeighs|
    ensures |acts| == |unknown| && forall k :: 0 <= k < |acts| ==> acts[k] == noNeighs[unknown[k]]
  {
    seq(|unknown|, k requires 0 <= k < |unknown| => noNeighs[unknown[k]])
  }

  /** The actions expand_leaf creates children for are, in increasing order,
      exactly the empty slots whose successor is not registered. */
  lemma PendingExact<S(!new)>(cube: Cube<S>, neighs: seq<Option<nat>>, s: S, states: map<S, nat>,
                              noNeighs: seq<nat>, unknown: seq<nat>, acts: seq<nat>)
    requires noNeighs == EmptySlots(neighs) && unknown == Absent(cube, s, states, noNeighs, 0)
    requires forall k :: 0 <= k < |unknown| ==> unknown[k] < |noNeighs|
    requires acts == Pending(noNeighs, unknown)
    ensures forall j, k :: 0 <= j < k < |acts| ==> acts[j] < acts[k]
    ensures forall k :: 0 <= k < |acts| ==>
              acts[k] < |neighs| && neighs[acts[k]].None? && cube.rotate(s, acts[k]) !in states
    ensures forall a :: 0 <= a < |neighs| && neighs[a].None? && cube.rotate(s, a) !in states ==> a in acts
  {
    EmptySlotsSpec(neighs, noNeighs);
    AbsentSpec(cube, s, states, noNeighs, 0, unknown);
    PendingSorted(noNeighs, unknown, acts);
    PendingComplete(cube, neighs, s, states, noNeighs, unknown, acts);
  }

  lemma PendingSorted(noNeighs: seq<nat>, unknown: seq<nat>, acts: seq<nat>)
    requires forall k :: 0 <= k < |unknown| ==> unknown[k] < |noNeighs|
    requires forall j, k :: 0 <= j < k < |noNeighs| ==> noNeighs[j] < noNeighs[k]
    requires forall j, k :: 0 <= j < k < |unknown| ==> unknown[j] < unknown[k]
    requires acts == Pending(noNeighs, unknown)
    ensures forall j, k :: 0 <= j < k < |acts| ==> acts[j] < acts[k]
  {
    forall j, k | 0 <= j < k < |acts| ensures acts[j] < acts[k] {
      assert unknown[j] < unknown[k];
    }
  }

  lemma PendingComplete<S(!new)>(cube: Cube<S>, neighs: seq<Option<nat>>, s: S, states: map<S, nat>,
                                 noNeighs: seq<nat>, unknown: seq<nat>, acts: seq<nat>)
    requires forall a :: 0 <= a < |neighs| && neighs[a].None? ==> a in noNeighs
    requires forall q :: 0 <= q < |noNeighs| && cube.rotate(s, noNeighs[q]) !in states ==> q in unknown
    requires forall k :: 0 <= k < |unknown| ==> unknown[k] < |noNeighs|
    requires acts == Pending(noNeighs, unknown)
    ensures forall a :: 0 <= a < |neighs| && neighs[a].None? && cube.rotate(s, a) !in states ==> a in acts
  {
    forall a | 0 <= a < |neighs| && neighs[a].None? && cube.rotate(s, a) !in states
      ensures a in acts
    {
      var q :| 0 <= q < |noNeighs| && noNeighs[q] == a;
      var k :| 0 <= k < |unknown| && unknown[k] == q;
      assert acts[k] == a;
    }
  }

  /** The reversed scan stops at the highest empty slot with a solved
      successor: no empty slot above the one returned leads to a solved state. */
  lemma ScanOrder<S(!new)>(cube: Cube<S>, nodes0: seq<Node<S>>, ns: seq<Node<S>>, states: map<S, nat>,
                           leaf: nat, noNeighs: seq<nat>, solveAction: int)
    requires leaf < |nodes0| && LinkOnly(nodes0, ns, leaf) && noNeighs == EmptySlots(nodes0[leaf].neighs)
    requires forall q :: 0 <= q < |noNeighs| ==> noNeighs[q] < |ns[leaf].neighs|
    requires forall q :: 0 <= q < |noNeighs| && solveAction < noNeighs[q] ==> Scanned(cube, ns, states, leaf, noNeighs[q])
    ensures forall a :: 0 <= a && solveAction < a < |nodes0[leaf].neighs| && nodes0[leaf].neighs[a].None? ==>
              !cube.isSolved(cube.rotate(nodes0[leaf].state, a))
  {
    EmptySlotsSpec(nodes0[leaf].neighs, noNeighs);
    forall a | 0 <= a && solveAction < a < |nodes0[leaf].neighs| && nodes0[leaf].neighs[a].None?
      ensures !cube.isSolved(cube.rotate(nodes0[leaf].state, a))
    {
      var q :| 0 <= q < |noNeighs| && noNeighs[q] == a;
      assert Scanned(cube, ns, states, leaf, noNeighs[q]);
    }
  }

  /** After the scan and the creation of the pending children every slot of
      the leaf is filled. */
  lemma FilledAfterCreate<S(!new)>(cube: Cube<S>, nodes0: seq<Node<S>>, states0: map<S, nat>, ns1: seq<Node<S>>,
                                   ns2: seq<Node<S>>, st2: map<S, nat>, leaf: nat, noNeighs: seq<nat>,
                                   acts: seq<nat>, evaluate: S -> (seq<real>, real))
    requires leaf < |nodes0| && Shaped(nodes0[leaf], cube.actionDim) && LinkOnly(nodes0, ns1, leaf)
    requires noNeighs == EmptySlots(nodes0[leaf].neighs)
    requires forall q :: 0 <= q < |noNeighs| ==> noNeighs[q] < |ns1[leaf].neighs|
    requires forall q :: 0 <= q < |noNeighs| ==> Scanned(cube, ns1, states0, leaf, noNeighs[q])
    requires forall a :: (0 <= a < |nodes0[leaf].neighs| && nodes0[leaf].neighs[a].None?
                          && cube.rotate(ns1[leaf].state, a) !in states0) ==> a in acts
    requires Created(cube, ns1, states0, ns2, st2, leaf, acts, evaluate, |acts|)
    ensures forall a :: 0 <= a < cube.actionDim ==> ns2[leaf].neighs[a].Some?
  {
    EmptySlotsSpec(nodes0[leaf].neighs, noNeighs);
    forall a | 0 <= a < cube.actionDim ensures ns2[leaf].neighs[a].Some? {
      if a in acts {
        var j :| 0 <= j < |acts| && acts[j] == a;
      } else if nodes0[leaf].neighs[a].None? {
        var q :| 0 <= q < |noNeighs| && noNeighs[q] == a;
        assert Scanned(cube, ns1, states0, leaf, noNeighs[q]);
      }
    }
  }

  /** The children expand_leaf adds: acts lists, in increasing order, exactly
      the empty slots of the leaf whose successor was not registered; child j
      is NewNode's child of the leaf by acts[j] with the network's output for
      its state, at handle |nodes0| + j, registered and in the leaf's slot. */
  ghost predicate ChildrenAdded<S(!new)>(cube: Cube<S>, nodes0: seq<Node<S>>, states0: map<S, nat>,
                                         ns: seq<Node<S>>, st: map<S, nat>, leaf: nat, acts: seq<nat>,
                                         evaluate: S -> (seq<real>, real)) {
    && cube.Valid() && leaf < |nodes0| && |ns| == |nodes0| + |acts|
    && |nodes0[leaf].neighs| == cube.actionDim && |ns[leaf].neighs| == cube.actionDim
    && (forall j, k :: 0 <= j < k < |acts| ==> acts[j] < acts[k])
    && (forall j :: 0 <= j < |acts| ==> acts[j] < |nodes0[leaf].neighs|)
    && (forall a :: 0 <= a < |nodes0[leaf].neighs| ==>
          (a in acts <==> nodes0[leaf].neighs[a].None? && cube.rotate(nodes0[leaf].state, a) !in states0))
    && (forall j :: 0 <= j < |acts| ==>
          var t := cube.rotate(nodes0[leaf].state, acts[j]);
          && ns[|nodes0| + j] == NewNode(cube, t, evaluate(t).0, evaluate(t).1, Some(Origin(leaf, nodes0[leaf].value, acts[j])))
          && ns[leaf].neighs[acts[j]] == Some(|nodes0| + j)
          && t in st && st[t] == |nodes0| + j)
  }

  /** The old nodes after expand_leaf: apart from the leaf's is_leaf, only
      empty slots changed (slots of the leaf, or slots pointing back to it),
      and W only at the slots of non-leaf nodes leading to the leaf, which
      hold v; old registrations stay. */
  ghost predicate OldNodesKept<S>(nodes0: seq<Node<S>>, states0: map<S, nat>, ns: seq<Node<S>>, st: map<S, nat>,
                                  leaf: nat, v: real) {
    && leaf < |nodes0| <= |ns|
    && (forall x :: 0 <= x < |nodes0| ==>
          var n', n := ns[x], nodes0[x];
          n'.state == n.state && n'.P == n.P && n'.value == n.value && n'.N == n.N && n'.L == n.L
          && |n'.W| == |n.W| && |n'.neighs| == |n.neighs| && (x != leaf ==> n'.isLeaf == n.isLeaf))
    && (forall x, b :: 0 <= x < |nodes0| && 0 <= b < |nodes0[x].neighs| ==>
          ns[x].neighs[b] == nodes0[x].neighs[b] ||
          (nodes0[x].neighs[b] == None && (x == leaf || ns[x].neighs[b] == Some(leaf))))
    && (forall x, b :: 0 <= x < |nodes0| && 0 <= b < |nodes0[x].W| && b < |nodes0[x].neighs| ==>
          ns[x].W[b] == if !nodes0[x].isLeaf && ns[x].neighs[b] == Some(leaf) then v else nodes0[x].W[b])
    && (forall t :: t in states0 ==> t in st && st[t] == states0[t])
  }

  /** The old nodes after the scan and the creation: only empty slots
      changed, of the leaf or pointing back to it; old registrations stay. */
  ghost predicate Attached<S>(nodes0: seq<Node<S>>, states0: map<S, nat>, ns: seq<Node<S>>, st: map<S, nat>,
                              leaf: nat) {
    && leaf < |nodes0| <= |ns|
    && (forall x :: 0 <= x < |nodes0| ==> ns[x] == nodes0[x].(neighs := ns[x].neighs) && |ns[x].neighs| == |nodes0[x].neighs|)
    && (forall x, b :: 0 <= x < |nodes0| && 0 <= b < |nodes0[x].neighs| ==>
          ns[x].neighs[b] == nodes0[x].neighs[b] ||
          (nodes0[x].neighs[b] == None && (x == leaf || ns[x].neighs[b] == Some(leaf))))
    && (forall t :: t in states0 ==> t in st && st[t] == states0[t])
  }

  /** The children and the old nodes as the "Generate new states" loop leaves them. */
  lemma ChildrenCreated<S(!new)>(cube: Cube<S>, nodes0: seq<Node<S>>, states0: map<S, nat>, ns1: seq<Node<S>>,
                                 ns2: seq<Node<S>>, st2: map<S, nat>, leaf: nat, acts: seq<nat>,
                                 evaluate: S -> (seq<real>, real))
    requires leaf < |nodes0| && |nodes0[leaf].neighs| == cube.actionDim && LinkOnly(nodes0, ns1, leaf)
    requires forall j, k :: 0 <= j < k < |acts| ==> acts[j] < acts[k]
    requires forall k :: 0 <= k < |acts| ==>
               acts[k] < |nodes0[leaf].neighs| && nodes0[leaf].neighs[acts[k]].None?
               && cube.rotate(ns1[leaf].state, acts[k]) !in states0
    requires forall a :: (0 <= a < |nodes0[leaf].neighs| && nodes0[leaf].neighs[a].None?
                          && cube.rotate(ns1[leaf].state, a) !in states0) ==> a in acts
    requires Created(cube, ns1, states0, ns2, st2, leaf, acts, evaluate, |acts|)
    ensures ChildrenAdded(cube, nodes0, states0, ns2, st2, leaf, acts, evaluate)
    ensures Attached(nodes0, states0, ns2, st2, leaf)
  {
    forall x | 0 <= x < |nodes0| ensures ns2[x] == nodes0[x].(neighs := ns2[x].neighs) {
      assert ns1[x] == nodes0[x].(neighs := ns1[x].neighs);
    }
  }

  /** Back-up and marking the leaf expanded leave the children as created. */
  lemma ChildrenKept<S(!new)>(cube: Cube<S>, nodes0: seq<Node<S>>, states0: map<S, nat>, ns2: seq<Node<S>>,
                              st2: map<S, nat>, ns3: seq<Node<S>>, leaf: nat, acts: seq<nat>,
                              evaluate: S -> (seq<real>, real), v: real)
    requires cube.Valid() && ChildrenAdded(cube, nodes0, states0, ns2, st2, leaf, acts, evaluate)
    requires WUpdated(cube, ns2, ns3, leaf, v)
    ensures ChildrenAdded(cube, nodes0, states0, ns3[leaf := ns3[leaf].(isLeaf := false)], st2, leaf, acts, evaluate)
  {
    var ns4 := ns3[leaf := ns3[leaf].(isLeaf := false)];
    forall x | |nodes0| <= x < |ns2|
      ensures ns4[x] == ns2[x]
    {
      var j := x - |nodes0|;
      var t := cube.rotate(nodes0[leaf].state, acts[j]);
      assert ns2[x] == NewNode(cube, t, evaluate(t).0, evaluate(t).1, Some(Origin(leaf, nodes0[leaf].value, acts[j])));
      assert Shaped(ns2[x], cube.actionDim) && ns2[x].isLeaf;
      assert forall b :: 0 <= b < |ns2[x].W| ==> ns3[x].W[b] == ns2[x].W[b];
      assert ns3[x].W == ns2[x].W;
    }
  }

  /** The old nodes across the back-up and the marking. */
  lemma OldNodesAfterExpand<S(!new)>(cube: Cube<S>, nodes0: seq<Node<S>>, states0: map<S, nat>,
                                     ns2: seq<Node<S>>, st2: map<S, nat>, ns3: seq<Node<S>>, leaf: nat, v: real)
    requires Attached(nodes0, states0, ns2, st2, leaf) && WUpdated(cube, ns2, ns3, leaf, v)
    ensures OldNodesKept(nodes0, states0, ns3[leaf := ns3[leaf].(isLeaf := false)], st2, leaf, v)
  {
  }

  /** The neighbour values read through the same slots of nodes with the
      same values agree. */
  lemma NeighbourValuesSame<S>(ns: seq<Node<S>>, ns': seq<Node<S>>, h: nat)
    requires h < |ns| && |ns'| == |ns| && ns'[h].neighs == ns[h].neighs
    requires forall x :: 0 <= x < |ns| ==> ns'[x].value == ns[x].value
    requires forall a :: 0 <= a < |ns[h].neighs| ==> ns[h].neighs[a].Some? && ns[h].neighs[a].value < |ns|
    ensures NeighbourValues(ns', h) == NeighbourValues(ns, h)
  {
  }

  /** The result of expand_leaf when no successor is solved: the leaf is
      expanded with every slot filled, its children are as ChildrenAdded
      says, the old nodes as OldNodesKept says, and v is the largest
      neighbour value. */
  ghost predicate Expansion<S(!new)>(cube: Cube<S>, nodes0: seq<Node<S>>, states0: map<S, nat>,
                                     ns: seq<Node<S>>, st: map<S, nat>, leaf: nat, acts: seq<nat>,
                                     evaluate: S -> (seq<real>, real), v: real) {
    && ChildrenAdded(cube, nodes0, states0, ns, st, leaf, acts, evaluate)
    && OldNodesKept(nodes0, states0, ns, st, leaf, v)
    && !ns[leaf].isLeaf
    && (forall a :: 0 <= a < |ns[leaf].neighs| ==> ns[leaf].neighs[a].Some? && ns[leaf].neighs[a].value < |ns|)
    && v == Max(NeighbourValues(ns, leaf))
  }

  /** Marking the leaf expanded after the back-up keeps the invariant, and
      the backed-up value is still the largest neighbour value. */
  lemma ExpansionShape<S(!new)>(cube: Cube<S>, ns2: seq<Node<S>>, st2: map<S, nat>, ns3: seq<Node<S>>,
                                leaf: nat, v: real)
    requires Inv(cube, ns3, st2) && WUpdated(cube, ns2, ns3, leaf, v) && Shaped(ns2[leaf], cube.actionDim)
    requires forall a :: 0 <= a < |ns2[leaf].neighs| ==> ns2[leaf].neighs[a].Some? && ns2[leaf].neighs[a].value < |ns2|
    requires v == Max(NeighbourValues(ns2, leaf))
    ensures var ns4 := ns3[leaf := ns3[leaf].(isLeaf := false)];
      && Inv(cube, ns4, st2) && !ns4[leaf].isLeaf
      && (forall a :: 0 <= a < |ns4[leaf].neighs| ==> ns4[leaf].neighs[a].Some? && ns4[leaf].neighs[a].value < |ns4|)
      && v == Max(NeighbourValues(ns4, leaf))
  {
    MarkExpandedInv(cube, ns3, st2, leaf);
    NeighbourValuesSame(ns2, ns3[leaf := ns3[leaf].(isLeaf := false)], leaf);
  }

  /** The back-up (ns2 to ns3) and the marking complete expand_leaf from the
      created children and the attached old nodes. */
  lemma ExpansionDone<S(!new)>(cube: Cube<S>, nodes0: seq<Node<S>>, states0: map<S, nat>, ns2: seq<Node<S>>,
                               st2: map<S, nat>, ns3: seq<Node<S>>, ns4: seq<Node<S>>, leaf: nat, acts: seq<nat>,
                               evaluate: S -> (seq<real>, real), v: real)
    requires ChildrenAdded(cube, nodes0, states0, ns2, st2, leaf, acts, evaluate)
    requires Attached(nodes0, states0, ns2, st2, leaf)
    requires Inv(cube, ns3, st2) && WUpdated(cube, ns2, ns3, leaf, v)
    requires forall a :: 0 <= a < |ns2[leaf].neighs| ==> ns2[leaf].neighs[a].Some? && ns2[leaf].neighs[a].value < |ns2|
    requires v == Max(NeighbourValues(ns2, leaf))
    requires ns4 == ns3[leaf := ns3[leaf].(isLeaf := false)]
    ensures Inv(cube, ns4, st2) && Expansion(cube, nodes0, states0, ns4, st2, leaf, acts, evaluate, v)
  {
    ChildrenKept(cube, nodes0, states0, ns2, st2, ns3, leaf, acts, evaluate, v);
    OldNodesAfterExpand(cube, nodes0, states0, ns2, st2, ns3, leaf, v);
    ExpansionShape(cube, ns2, st2, ns3, leaf, v);
  }

  /** The loop of MCTS.search_leaf on the arena: from the root, follow the
      chosen action out of each non-leaf node, bumping N by 1 and L by nu at
      that action, until a leaf or until fuel actions were taken. trail lists
      the nodes passed and then the one reached. */
  method Descend<S(!new)>(cube: Cube<S>, nodes0: seq<Node<S>>, states: map<S, nat>, root: nat,
                          select: Node<S> -> nat, nu: real, fuel: nat)
    returns (ns: seq<Node<S>>, path: seq<nat>, leaf: nat, ghost trail: seq<nat>)
    requires Inv(cube, nodes0, states) && root < |nodes0|
    requires forall n :: select(n) < cube.actionDim
    ensures Inv(cube, ns, states)
    ensures |trail| == |path| + 1 && leaf == trail[|path|] && leaf < |ns|
    ensures |path| <= fuel && (!ns[leaf].isLeaf ==> |path| == fuel)
    ensures Walk(cube, ns, root, path, trail)
    ensures Bumped(nodes0, ns, nu, trail[..|path|], path)
  {
    ns, path, trail, leaf := nodes0, [], [root], root;
    WalkStart(cube, ns, root);
    BumpedStart(ns, nu);
    while !ns[leaf].isLeaf && |path| < fuel
      invariant Inv(cube, ns, states) && Walk(cube, ns, root, path, trail) && Bumped(nodes0, ns, nu, trail[..|path|], path)
      invariant leaf == trail[|path|] && |path| <= fuel
      decreases fuel - |path|
    {
      var action := select(ns[leaf]);
      DescendEdge(cube, ns, states, leaf, action);
      var next := ns[leaf].neighs[action].value;
      ghost var before := ns;
      ns := Bump(ns, leaf, action, nu);
      DescendStep(cube, nodes0, states, before, ns, root, nu, path, trail, action, next);
      path, trail, leaf := path + [action], trail + [next], next;
    }
  }

  /** A non-leaf node has a neighbour at every action. */
  lemma DescendEdge<S(!new)>(cube: Cube<S>, ns: seq<Node<S>>, states: map<S, nat>, h: nat, action: nat)
    requires Inv(cube, ns, states) && h < |ns| && !ns[h].isLeaf && action < cube.actionDim
    ensures action < |ns[h].N| && action < |ns[h].L| && action < |ns[h].neighs|
    ensures ns[h].neighs[action].Some? && ns[h].neighs[action].value < |ns|
  {
    assert Shaped(ns[h], cube.actionDim) && Expanded(ns[h]);
    assert EdgeOk(cube, ns, h, action);
  }

  /** One step of the descent keeps the invariant, the walk and the counts. */
  lemma DescendStep<S(!new)>(cube: Cube<S>, nodes0: seq<Node<S>>, states: map<S, nat>, ns: seq<Node<S>>,
                             ns': seq<Node<S>>, root: nat, nu: real, path: seq<nat>, trail: seq<nat>,
                             action: nat, next: nat)
    requires Inv(cube, ns, states) && Walk(cube, ns, root, path, trail)
    requires Bumped(nodes0, ns, nu, trail[..|path|], path)
    requires !ns[trail[|path|]].isLeaf && action < cube.actionDim
    requires action < |ns[trail[|path|]].neighs| && ns[trail[|path|]].neighs[action] == Some(next)
    requires action < |ns[trail[|path|]].N| && action < |ns[trail[|path|]].L|
    requires ns' == Bump(ns, trail[|path|], action, nu)
    ensures Inv(cube, ns', states) && Walk(cube, ns', root, path + [action], trail + [next])
    ensures Bumped(nodes0, ns', nu, (trail + [next])[..|path + [action]|], path + [action])
  {
    var node := trail[|path|];
    assert EdgeOk(cube, ns, node, action);
    WalkStep(cube, ns, ns', root, path, trail, action, next);
    BumpedStep(nodes0, ns, nu, trail[..|path|], path, node, action);
    SameStructureInv(cube, ns, ns', states);
    assert (trail + [next])[..|path| + 1] == trail[..|path|] + [node];
  }

  /** The reversed scan of expand_leaf with the positions i .. |noNeighs|-1
      done: the graph only gained links at the leaf, unknown_neighs still
      lists the positions below i and, from i on, those whose successor is
      not registered, and every scanned slot is as Scanned says. */
  ghost predicate Scanning<S(!new)>(cube: Cube<S>, nodes0: seq<Node<S>>, states: map<S, nat>, leaf: nat,
                                    noNeighs: seq<nat>, ns: seq<Node<S>>, unknown: seq<nat>, i: nat) {
    && Inv(cube, ns, states) && leaf < |nodes0| && LinkOnly(nodes0, ns, leaf)
    && |ns[leaf].neighs| == cube.actionDim && i <= |noNeighs|
    && (forall q :: 0 <= q < |noNeighs| ==> noNeighs[q] < cube.actionDim)
    && unknown == StepRange(i, 1) + Absent(cube, nodes0[leaf].state, states, noNeighs, i)
    && (forall q :: i <= q < |noNeighs| ==> Scanned(cube, ns, states, leaf, noNeighs[q]))
  }

  lemma ScanStart<S(!new)>(cube: Cube<S>, nodes0: seq<Node<S>>, states: map<S, nat>, leaf: nat, noNeighs: seq<nat>)
    requires Inv(cube, nodes0, states) && leaf < |nodes0| && noNeighs == EmptySlots(nodes0[leaf].neighs)
    ensures Scanning(cube, nodes0, states, leaf, noNeighs, nodes0, StepRange(|noNeighs|, 1), |noNeighs|)
  {
    assert Shaped(nodes0[leaf], cube.actionDim);
    EmptySlotsSpec(nodes0[leaf].neighs, noNeighs);
    LinkOnlyRefl(nodes0, leaf);
  }

  /** An unregistered, unsolved successor keeps its position. */
  lemma ScanKeep<S(!new)>(cube: Cube<S>, nodes0: seq<Node<S>>, states: map<S, nat>, leaf: nat, noNeighs: seq<nat>,
                          ns: seq<Node<S>>, unknown: seq<nat>, i: nat)
    requires Scanning(cube, nodes0, states, leaf, noNeighs, ns, unknown, i + 1)
    requires var t := cube.rotate(ns[leaf].state, noNeighs[i]); !cube.isSolved(t) && t !in states
    ensures Scanning(cube, nodes0, states, leaf, noNeighs, ns, unknown, i)
  {
    AbsentKeep(cube, nodes0[leaf].state, states, noNeighs, i, unknown);
  }

  /** A registered, unsolved successor is linked to the leaf in both
      directions and its position leaves unknown_neighs. */
  lemma ScanDrop<S(!new)>(cube: Cube<S>, nodes0: seq<Node<S>>, states: map<S, nat>, leaf: nat, noNeighs: seq<nat>,
                          ns: seq<Node<S>>, unknown: seq<nat>, i: nat, ns': seq<Node<S>>, unknown': seq<nat>)
    requires Scanning(cube, nodes0, states, leaf, noNeighs, ns, unknown, i + 1)
    requires var t := cube.rotate(ns[leaf].state, noNeighs[i]); !cube.isSolved(t) && t in states
    ensures var g := states[cube.rotate(ns[leaf].state, noNeighs[i])];
      g < |ns| && cube.revAction(noNeighs[i]) < |ns[g].neighs| && i < |unknown|
    ensures var g := states[cube.rotate(ns[leaf].state, noNeighs[i])];
      ns' == Link(cube, ns, leaf, noNeighs[i], g) && unknown' == unknown[..i] + unknown[i + 1..] ==>
      Scanning(cube, nodes0, states, leaf, noNeighs, ns', unknown', i)
  {
    var action := noNeighs[i];
    var g := states[cube.rotate(ns[leaf].state, action)];
    AbsentDrop(cube, nodes0[leaf].state, states, noNeighs, i, unknown);
    LinkInv(cube, ns, states, leaf, action, g);
    if ns' == Link(cube, ns, leaf, action, g) && unknown' == unknown[..i] + unknown[i + 1..] {
      LinkOnlyTrans(nodes0, ns, ns', leaf);
      ScannedLink(cube, states, ns, ns', leaf, noNeighs, i);
    }
  }

  /** One position of the scan: a solved successor ends it; a registered
      one is linked and leaves unknown; an unregistered one stays. */
  method ScanStep<S(!new)>(cube: Cube<S>, ghost nodes0: seq<Node<S>>, states: map<S, nat>, leaf: nat,
                           noNeighs: seq<nat>, ns: seq<Node<S>>, unknown: seq<nat>, i: nat)
    returns (solved: bool, ns': seq<Node<S>>, unknown': seq<nat>)
    requires Scanning(cube, nodes0, states, leaf, noNeighs, ns, unknown, i + 1)
    ensures solved ==> ns' == ns && cube.isSolved(cube.rotate(nodes0[leaf].state, noNeighs[i]))
    ensures !solved ==> Scanning(cube, nodes0, states, leaf, noNeighs, ns', unknown', i)
  {
    var action := noNeighs[i];
    var next := cube.rotate(ns[leaf].state, action);
    if cube.isSolved(next) {
      return true, ns, unknown;
    }
    solved := false;
    if next in states {
      ScanDrop(cube, nodes0, states, leaf, noNeighs, ns, unknown, i, Link(cube, ns, leaf, action, states[next]),
               unknown[..i] + unknown[i + 1..]);
      ns', unknown' := Link(cube, ns, leaf, action, states[next]), unknown[..i] + unknown[i + 1..];
    } else {
      ScanKeep(cube, nodes0, states, leaf, noNeighs, ns, unknown, i);
      ns', unknown' := ns, unknown;
    }
  }

  /** The "Exploring child states" loop of expand_leaf on the arena: scan
      the empty slots of the leaf from the highest down; stop at the first
      action whose successor is solved; link every successor that is already
      registered, and drop its position from unknown. */
  method Scan<S(!new)>(cube: Cube<S>, nodes0: seq<Node<S>>, states: map<S, nat>, leaf: nat, noNeighs: seq<nat>)
    returns (solveAction: int, ns: seq<Node<S>>, unknown: seq<nat>)
    requires Inv(cube, nodes0, states) && leaf < |nodes0| && noNeighs == EmptySlots(nodes0[leaf].neighs)
    ensures Inv(cube, ns, states) && LinkOnly(nodes0, ns, leaf)
    ensures -1 <= solveAction < cube.actionDim
    ensures solveAction >= 0 ==> solveAction in noNeighs && cube.isSolved(cube.rotate(nodes0[leaf].state, solveAction))
    ensures forall q :: 0 <= q < |noNeighs| ==> noNeighs[q] < |ns[leaf].neighs|
    ensures forall q :: 0 <= q < |noNeighs| && solveAction < noNeighs[q] ==> Scanned(cube, ns, states, leaf, noNeighs[q])
    ensures solveAction == -1 ==> unknown == Absent(cube, nodes0[leaf].state, states, noNeighs, 0)
  {
    ns, unknown := nodes0, StepRange(|noNeighs|, 1);
    ScanStart(cube, nodes0, states, leaf, noNeighs);
    var i: nat := |noNeighs|;
    while i > 0
      invariant Scanning(cube, nodes0, states, leaf, noNeighs, ns, unknown, i)
    {
      i := i - 1;
      var solved;
      solved, ns, unknown := ScanStep(cube, nodes0, states, leaf, noNeighs, ns, unknown, i);
      if solved {
        EmptySlotsSpec(nodes0[leaf].neighs, noNeighs);
        return noNeighs[i], ns, unknown;
      }
    }
    solveAction := -1;
  }

  /** One child of "Generate new states", with the network's output for
      its state. */
  method GenerateStep<S(!new)>(cube: Cube<S>, ghost nodes0: seq<Node<S>>, ghost states0: map<S, nat>,
                               ns: seq<Node<S>>, st: map<S, nat>, leaf: nat, acts: seq<nat>,
                               ghost evaluate: S -> (seq<real>, real), k: nat, p: seq<real>, v: real)
    returns (ns': seq<Node<S>>, st': map<S, nat>)
    requires Inv(cube, ns, st) && Created(cube, nodes0, states0, ns, st, leaf, acts, evaluate, k) && k < |acts|
    requires forall i, j :: 0 <= i < j < |acts| ==> acts[i] < acts[j]
    requires (p, v) == evaluate(cube.rotate(nodes0[leaf].state, acts[k]))
    ensures Inv(cube, ns', st') && Created(cube, nodes0, states0, ns', st', leaf, acts, evaluate, k + 1)
  {
    CreatedStep(cube, nodes0, states0, ns, st, leaf, acts, evaluate, k);
    var r := AddChild(cube, ns, st, leaf, acts[k], p, v);
    ns', st' := r.0, r.1;
  }

  /** The "Generate new states" loop of expand_leaf on the arena: the
      network is asked once for the whole batch of successors of the leaf
      along acts, then one child per action is added and registered. */
  method Generate<S(!new)>(cube: Cube<S>, nodes0: seq<Node<S>>, states0: map<S, nat>, leaf: nat, acts: seq<nat>,
                           evaluate: S -> (seq<real>, real))
    returns (ns: seq<Node<S>>, st: map<S, nat>)
    requires Inv(cube, nodes0, states0) && leaf < |nodes0|
    requires forall j, k :: 0 <= j < k < |acts| ==> acts[j] < acts[k]
    requires forall k :: 0 <= k < |acts| ==> acts[k] < cube.actionDim && cube.rotate(nodes0[leaf].state, acts[k]) !in states0
    ensures Inv(cube, ns, st) && Created(cube, nodes0, states0, ns, st, leaf, acts, evaluate, |acts|)
  {
    ns, st := nodes0, states0;
    var s := nodes0[leaf].state;
    var batch := seq(|acts|, k requires 0 <= k < |acts| => cube.rotate(s, acts[k]));
    var outputs := seq(|batch|, k requires 0 <= k < |batch| => evaluate(batch[k]));
    CreatedStart(cube, nodes0, states0, leaf, acts, evaluate);
    var k := 0;
    while k < |acts|
      invariant Inv(cube, ns, st) && Created(cube, nodes0, states0, ns, st, leaf, acts, evaluate, k)
    {
      var (p, v) := outputs[k];
      ns, st := GenerateStep(cube, nodes0, states0, ns, st, leaf, acts, evaluate, k, p, v);
      k := k + 1;
    }
  }

  /** no_neighs = no_neighs[unknown_neighs], the batch for the network and
      "Generate new states", after a scan that met no solved successor:
      afterwards every slot of the leaf is filled. nodes0 is the graph
      before the scan and ns1 the one after it. */
  method CreateChildren<S(!new)>(cube: Cube<S>, ghost nodes0: seq<Node<S>>, states0: map<S, nat>, ns1: seq<Node<S>>,
                                 leaf: nat, noNeighs: seq<nat>, unknown: seq<nat>, evaluate: S -> (seq<real>, real))
    returns (ns: seq<Node<S>>, st: map<S, nat>, ghost created: seq<nat>)
    requires Inv(cube, ns1, states0) && leaf < |nodes0| && |nodes0[leaf].neighs| == cube.actionDim
    requires LinkOnly(nodes0, ns1, leaf) && noNeighs == EmptySlots(nodes0[leaf].neighs)
    requires forall q :: 0 <= q < |noNeighs| ==>
               noNeighs[q] < |ns1[leaf].neighs| && Scanned(cube, ns1, states0, leaf, noNeighs[q])
    requires unknown == Absent(cube, ns1[leaf].state, states0, noNeighs, 0)
    ensures Inv(cube, ns, st)
    ensures ChildrenAdded(cube, nodes0, states0, ns, st, leaf, created, evaluate)
    ensures Attached(nodes0, states0, ns, st, leaf)
    ensures forall a :: 0 <= a < cube.actionDim ==> ns[leaf].neighs[a].Some?
  {
    AbsentSpec(cube, ns1[leaf].state, states0, noNeighs, 0, unknown);
    var newActions := Pending(noNeighs, unknown);
    PendingExact(cube, nodes0[leaf].neighs, ns1[leaf].state, states0, noNeighs, unknown, newActions);
    ns, st := Generate(cube, ns1, states0, leaf, newActions, evaluate);
    FilledAfterCreate(cube, nodes0, states0, ns1, ns, st, leaf, noNeighs, newActions, evaluate);
    ChildrenCreated(cube, nodes0, states0, ns1, ns, st, leaf, newActions, evaluate);
    created := newActions;
  }

  /** The rest of expand_leaf once the scan met no solved successor: the
      successors still unknown get their nodes, "Update W" backs the largest
      neighbour value up, and the leaf is marked expanded. */
  method ExpandRest<S(!new)>(cube: Cube<S>, ghost nodes0: seq<Node<S>>, states0: map<S, nat>, ns1: seq<Node<S>>,
                             leaf: nat, noNeighs: seq<nat>, unknown: seq<nat>, evaluate: S -> (seq<real>, real))
    returns (ns: seq<Node<S>>, st: map<S, nat>, ghost created: seq<nat>, maxVal: real)
    requires Inv(cube, ns1, states0) && leaf < |nodes0| && |nodes0[leaf].neighs| == cube.actionDim
    requires LinkOnly(nodes0, ns1, leaf) && noNeighs == EmptySlots(nodes0[leaf].neighs)
    requires forall q :: 0 <= q < |noNeighs| ==>
               noNeighs[q] < |ns1[leaf].neighs| && Scanned(cube, ns1, states0, leaf, noNeighs[q])
    requires unknown == Absent(cube, ns1[leaf].state, states0, noNeighs, 0)
    ensures Inv(cube, ns, st) && Expansion(cube, nodes0, states0, ns, st, leaf, created, evaluate, maxVal)
  {
    var ns2, st2;
    ns2, st2, created := CreateChildren(cube, nodes0, states0, ns1, leaf, noNeighs, unknown, evaluate);
    NeighbourBounds(cube, ns2, st2, leaf);
    maxVal := Max(NeighbourValues(ns2, leaf));
    InvBackUpReady(cube, ns2, st2, leaf);
    var ns3 := BackUpNeighbours(cube, ns2, leaf, maxVal);
    BackedUpDone(cube, st2, ns2, ns3, leaf, maxVal);
    ns, st := ns3[leaf := ns3[leaf].(isLeaf := false)], st2;
    ExpansionDone(cube, nodes0, states0, ns2, st2, ns3, ns, leaf, created, evaluate, maxVal);
  }

  /** A descent from the root registered under start, followed by an action
      that solves the leaf's state, replays from start to a solved state. */
  lemma SolvedQueue<S(!new)>(cube: Cube<S>, ns: seq<Node<S>>, states: map<S, nat>, start: S, root: nat,
                             path: seq<nat>, trail: seq<nat>, a: nat)
    requires Inv(cube, ns, states) && start in states && root == states[start]
    requires Walk(cube, ns, root, path, trail)
    requires cube.isSolved(cube.rotate(ns[trail[|path|]].state, a))
    ensures cube.isSolved(cube.Replay(start, path + [a]))
  {
    cube.ReplaySnoc(start, path, a);
  }

  /** Filling empty slots keeps a walk: its edges were already filled and
      no node changes its state or its is_leaf. */
  lemma WalkLinkOnly<S(!new)>(cube: Cube<S>, ns: seq<Node<S>>, ns': seq<Node<S>>, root: nat, path: seq<nat>,
                              trail: seq<nat>, leaf: nat)
    requires Walk(cube, ns, root, path, trail) && LinkOnly(ns, ns', leaf)
    ensures Walk(cube, ns', root, path, trail)
    ensures ns'[trail[|path|]].isLeaf == ns[trail[|path|]].isLeaf
    ensures ns'[trail[|path|]].state == ns[trail[|path|]].state
  {
    forall k | 0 <= k < |path|
      ensures ns'[trail[k]].neighs[path[k]] == Some(trail[k + 1])
    {
      assert ns[trail[k]].neighs[path[k]] == Some(trail[k + 1]);
    }
  }

  /** Expansion keeps every registration. */
  lemma ExpansionRegistered<S(!new)>(cube: Cube<S>, nodes0: seq<Node<S>>, states0: map<S, nat>, ns: seq<Node<S>>,
                                     st: map<S, nat>, leaf: nat, acts: seq<nat>, evaluate: S -> (seq<real>, real),
                                     v: real, t: S)
    requires Expansion(cube, nodes0, states0, ns, st, leaf, acts, evaluate, v) && t in states0
    ensures t in st && st[t] == states0[t]
  {
  }
}
