/** The searchers of search.py: the one-step searcher (Searcher.search driving
    RandomDFS._step), breadth-first search, and Monte Carlo tree search over the
    graph of module SearchGraph. Wall-clock limits are step budgets (fuel), the
    random draws and the network are parameters. */
module Search {
  import opened Wrappers
  import opened Numerics
  import opened Puzzle
  import opened SearchGraph

  /** Searcher.search with RandomDFS._step: one random action per step until the
      state is solved or the budget of draws (one per step the time limit allows)
      is used up. */
  class RandomDFS<S(!new)> {
    const cube: Cube<S>
    var actionQueue: seq<nat>

    constructor (cube: Cube<S>)
      ensures this.cube == cube && actionQueue == []
    {
      this.cube := cube;
      actionQueue := [];
    }

    /** Searcher.reset: a new, empty action queue. */
    method Reset()
      modifies this
      ensures actionQueue == []
    {
      actionQueue := [];
    }

    /** RandomDFS._step, with np.random.randint(action_dim) supplied as draw. */
    function Step(state: S, draw: nat): (r: (nat, S, bool))
      ensures r.0 == draw && r.1 == cube.rotate(state, draw) && r.2 == cube.isSolved(r.1)
    {
      var next := cube.rotate(state, draw);
      (draw, next, cube.isSolved(next))
    }

    /** On success the queue replays from the start to a solved state and no
        shorter prefix of the draws did; an already solved start gives an empty
        queue; on timeout the queue holds every draw and none solved. */
    method Search(start: S, draws: seq<nat>) returns (solved: bool)
      modifies this
      ensures actionQueue <= draws
      ensures cube.isSolved(start) ==> solved && actionQueue == []
      ensures solved ==> cube.isSolved(cube.Replay(start, actionQueue))
      ensures forall k :: 0 <= k < |actionQueue| ==> !cube.isSolved(cube.Replay(start, draws[..k]))
      ensures !solved ==> actionQueue == draws && !cube.isSolved(cube.Replay(start, draws))
    {
      Reset();
      if cube.isSolved(start) {
        return true;
      }
      var state := start;
      var k := 0;
      while k < |draws|
        invariant 0 <= k <= |draws| && actionQueue == draws[..k]
        invariant state == cube.Replay(start, actionQueue)
        invariant forall j :: 0 <= j <= k ==> !cube.isSolved(cube.Replay(start, draws[..j]))
      {
        var (action, next, solutionFound) := Step(state, draws[k]);
        cube.ReplaySnoc(start, actionQueue, action);
        actionQueue := actionQueue + [action];
        state := next;
        k := k + 1;
        assert actionQueue == draws[..k];
        if solutionFound {
          return true;
        }
      }
      assert draws[..|draws|] == draws;
      return false;
    }
  }

  /** The back-pointer BFS stores for a discovered state: (None, None) for the
      root, (parent key, action index) otherwise. */
  datatype Back<S> = Root | From(parent: S, action: nat)

  datatype BfsOutcome =
    | Solved
    | OutOfTime
    | QueueExhausted   // queue.popleft() on an empty deque raises IndexError

  /** Every back-pointer is an edge of the transition model, the root is the
      only state without a parent. */
  ghost predicate BackPointers<S(!new)>(cube: Cube<S>, m: map<S, Back<S>>, root: S) {
    && root in m && m[root] == Root
    && (forall t :: t in m && m[t].From? ==>
          m[t].parent in m && m[t].action < cube.actionDim && cube.rotate(m[t].parent, m[t].action) == t)
    && (forall t :: t in m && m[t].Root? ==> t == root)
  }

  /** Following back-pointers from u for |acts| steps reaches t, and acts are
      the actions of those steps, in forward order. */
  ghost predicate ChainFrom<S>(m: map<S, Back<S>>, t: S, u: S, acts: seq<nat>)
    decreases |acts|
  {
    if acts == [] then t == u
    else u in m && m[u].From? && m[u].action == acts[|acts| - 1] && ChainFrom(m, t, m[u].parent, acts[..|acts| - 1])
  }

  /** A chain can be extended at its far end by the parent's back-pointer. */
  lemma {:induction false} ChainPrepend<S>(m: map<S, Back<S>>, t: S, u: S, acts: seq<nat>)
    requires ChainFrom(m, t, u, acts)
    requires t in m && m[t].From?
    ensures ChainFrom(m, m[t].parent, u, [m[t].action] + acts)
    decreases |acts|
  {
    if acts == [] {
      assert ChainFrom(m, m[t].parent, m[t].parent, []);
      assert ([m[t].action] + acts)[..0] == [];
    } else {
      var last := |acts| - 1;
      ChainPrepend(m, t, m[u].parent, acts[..last]);
      assert ([m[t].action] + acts)[..|acts|] == [m[t].action] + acts[..last];
    }
  }

  /** A chain of back-pointers from t to u replays from t to u. */
  lemma {:induction false} ChainReplays<S(!new)>(cube: Cube<S>, m: map<S, Back<S>>, root: S, t: S, u: S, acts: seq<nat>)
    requires BackPointers(cube, m, root) && ChainFrom(m, t, u, acts)
    ensures cube.Replay(t, acts) == u
    decreases |acts|
  {
    if acts != [] {
      var last := |acts| - 1;
      ChainReplays(cube, m, root, t, m[u].parent, acts[..last]);
      cube.ReplaySnoc(t, acts[..last], acts[last]);
      assert acts[..last] + [acts[last]] == acts;
    }
  }

  /** The BFS bookkeeping: back-pointers where a state lies one level below
      its parent and the root at level 0, and order lists every discovered
      state once, in discovery order. */
  ghost predicate Frontier<S(!new)>(cube: Cube<S>, m: map<S, Back<S>>, depth: map<S, nat>, order: seq<S>, root: S) {
    && BackPointers(cube, m, root)
    && depth.Keys == m.Keys && depth[root] == 0
    && (forall t :: t in m && m[t].From? ==> depth[t] == depth[m[t].parent] + 1)
    && |order| > 0 && order[0] == root
    && (forall i, j :: 0 <= i < j < |order| ==> order[i] != order[j])
    && (forall t :: t in m <==> t in order)
  }

  /** Discovering the unseen successor along action i of a discovered state. */
  lemma FrontierAdd<S(!new)>(cube: Cube<S>, m: map<S, Back<S>>, depth: map<S, nat>, order: seq<S>,
                             root: S, state: S, i: nat, m': map<S, Back<S>>, depth': map<S, nat>, order': seq<S>)
    requires Frontier(cube, m, depth, order, root) && state in m && i < cube.actionDim
    requires cube.rotate(state, i) !in m
    requires var next := cube.rotate(state, i);
      && m' == m[next := From(state, i)] && depth' == depth[next := depth[state] + 1] && order' == order + [next]
    ensures Frontier(cube, m', depth', order', root)
  {
    var next := cube.rotate(state, i);
    forall t | t in m' ensures t in order' {
      if t != next { assert t in order; }
    }
  }

  /** Action a leads from the discovered state t to a discovered state at
      most one level deeper. */
  ghost predicate Reached<S(!new)>(cube: Cube<S>, m: map<S, Back<S>>, depth: map<S, nat>, t: S, a: nat) {
    t in depth && cube.rotate(t, a) in m && cube.rotate(t, a) in depth && depth[cube.rotate(t, a)] <= depth[t] + 1
  }

  /** The breadth-first layering while order[c] is being expanded and its
      actions below i are done: the states before c are no deeper than
      order[c], those from c to b are at its level and those from b on one
      level below; no discovered state is solved or more than one level
      below order[c]; every action out of a state before c, and every action
      of order[c] below i, is Reached. */
  ghost predicate Layers<S(!new)>(cube: Cube<S>, m: map<S, Back<S>>, depth: map<S, nat>, order: seq<S>,
                                  c: nat, b: nat, i: nat) {
    && depth.Keys == m.Keys && c < b <= |order|
    && (forall k :: 0 <= k < |order| ==> order[k] in m)
    && (forall k :: 0 <= k < c ==> depth[order[k]] <= depth[order[c]])
    && (forall k :: c <= k < |order| ==> depth[order[k]] == if k < b then depth[order[c]] else depth[order[c]] + 1)
    && (forall t :: t in m ==> !cube.isSolved(t) && depth[t] <= depth[order[c]] + 1)
    && (forall j, a :: 0 <= j < c && 0 <= a < cube.actionDim ==> Reached(cube, m, depth, order[j], a))
    && (forall a :: 0 <= a < i ==> Reached(cube, m, depth, order[c], a))
  }

  /** The layering between two expansions, p states having been expanded:
      while some state is left to expand, it is the layering of order[p]
      with no action done. */
  ghost predicate Popped<S(!new)>(cube: Cube<S>, m: map<S, Back<S>>, depth: map<S, nat>, order: seq<S>, p: nat, b: nat) {
    p < |order| ==> Layers(cube, m, depth, order, p, b, 0)
  }

  /** One discovery of the for loop of BFS.search, on the whole bookkeeping. */
  lemma Discover<S(!new)>(cube: Cube<S>, m: map<S, Back<S>>, depth: map<S, nat>, order: seq<S>, root: S, state: S,
                          c: nat, b: nat, i: nat, m': map<S, Back<S>>, depth': map<S, nat>, order': seq<S>)
    requires Frontier(cube, m, depth, order, root) && Layers(cube, m, depth, order, c, b, i)
    requires i < cube.actionDim && state == order[c]
    requires var next := cube.rotate(state, i);
      && next !in m && !cube.isSolved(next)
      && m' == m[next := From(state, i)] && depth' == depth[next := depth[state] + 1] && order' == order + [next]
    ensures Frontier(cube, m', depth', order', root) && Layers(cube, m', depth', order', c, b, i + 1)
  {
    FrontierAdd(cube, m, depth, order, root, state, i, m', depth', order');
    LayersAdd(cube, m, depth, order, state, c, b, i, m', depth', order');
  }

  /** Appending the states a for loop discovered to both the discovery order
      and the queue keeps the queue the part of the order after c. */
  lemma SuffixAppend<S>(order: seq<S>, queue: seq<S>, c: nat, added: seq<S>)
    requires c < |order| && queue == order[c + 1..]
    ensures queue + added == (order + added)[c + 1..]
  {
  }

  /** A successor that is already discovered is Reached. */
  lemma LayersKnown<S(!new)>(cube: Cube<S>, m: map<S, Back<S>>, depth: map<S, nat>, order: seq<S>, c: nat, b: nat,
                             i: nat)
    requires Layers(cube, m, depth, order, c, b, i) && cube.rotate(order[c], i) in m
    ensures Layers(cube, m, depth, order, c, b, i + 1)
  {
    assert Reached(cube, m, depth, order[c], i);
  }

  /** Discovering an unsolved successor one level below order[c] keeps the
      layering. */
  lemma LayersAdd<S(!new)>(cube: Cube<S>, m: map<S, Back<S>>, depth: map<S, nat>, order: seq<S>, state: S, c: nat,
                           b: nat, i: nat, m': map<S, Back<S>>, depth': map<S, nat>, order': seq<S>)
    requires Layers(cube, m, depth, order, c, b, i) && state == order[c]
    requires var next := cube.rotate(state, i);
      && next !in m && !cube.isSolved(next)
      && m' == m[next := From(state, i)] && depth' == depth[next := depth[state] + 1]
      && order' == order + [next]
    ensures Layers(cube, m', depth', order', c, b, i + 1)
  {
    var next := cube.rotate(state, i);
    forall k | 0 <= k < |order'| ensures order'[k] in m' && (k < |order| ==> order'[k] == order[k]) {
      if k < |order| { assert order'[k] == order[k]; }
    }
    forall j, a | 0 <= j < c && 0 <= a < cube.actionDim ensures Reached(cube, m', depth', order'[j], a) {
      assert order'[j] == order[j] && Reached(cube, m, depth, order[j], a);
    }
    forall a | 0 <= a < i + 1 ensures Reached(cube, m', depth', order'[c], a) {
      if a < i { assert Reached(cube, m, depth, order[c], a); }
    }
  }

  /** Once every action of order[c] is done, c + 1 states are expanded; the
      boundary moves to the end once the level of order[c] is used up. */
  lemma LayersDone<S(!new)>(cube: Cube<S>, m: map<S, Back<S>>, depth: map<S, nat>, order: seq<S>, c: nat, b: nat)
    requires Layers(cube, m, depth, order, c, b, cube.actionDim)
    ensures Popped(cube, m, depth, order, c + 1, if c + 1 < b then b else |order|)
  {
    if c + 1 < |order| {
      var d := depth[order[c]];
      assert depth[order[c + 1]] == if c + 1 < b then d else d + 1;
      forall j, a | 0 <= j < c + 1 && 0 <= a < cube.actionDim ensures Reached(cube, m, depth, order[j], a) {
      }
      forall k | 0 <= k < c + 1 ensures depth[order[k]] <= depth[order[c + 1]] {
        if k < c { assert depth[order[k]] <= d; }
      }
    }
  }

  /** Every state that valid actions reach from the root in at most as many
      steps as the level of order[c] is discovered, at a level no deeper than
      the number of steps. */
  lemma {:induction false} WithinLevel<S(!new)>(cube: Cube<S>, m: map<S, Back<S>>, depth: map<S, nat>, order: seq<S>,
                                                root: S, c: nat, b: nat, i: nat, acts: seq<nat>)
    requires Frontier(cube, m, depth, order, root) && Layers(cube, m, depth, order, c, b, i)
    requires cube.ValidActions(acts) && |acts| <= depth[order[c]]
    ensures cube.Replay(root, acts) in m && depth[cube.Replay(root, acts)] <= |acts|
    decreases |acts|
  {
    if acts != [] {
      var k := |acts| - 1;
      var pre, a := acts[..k], acts[k];
      WithinLevel(cube, m, depth, order, root, c, b, i, pre);
      var t := cube.Replay(root, pre);
      assert t in order;
      var j :| 0 <= j < |order| && order[j] == t;
      assert j < c;
      assert Reached(cube, m, depth, order[j], a);
      cube.ReplaySnoc(root, pre, a);
      assert pre + [a] == acts;
    }
  }

  /** While order[c] is expanded, no sequence of valid actions that is not
      longer than its level solves the root. */
  lemma NoShorterSolution<S(!new)>(cube: Cube<S>, m: map<S, Back<S>>, depth: map<S, nat>, order: seq<S>,
                                   root: S, c: nat, b: nat, i: nat)
    requires Frontier(cube, m, depth, order, root) && Layers(cube, m, depth, order, c, b, i)
    ensures forall acts :: cube.ValidActions(acts) && |acts| <= depth[order[c]] ==> !cube.isSolved(cube.Replay(root, acts))
  {
    forall acts | cube.ValidActions(acts) && |acts| <= depth[order[c]]
      ensures !cube.isSolved(cube.Replay(root, acts))
    {
      WithinLevel(cube, m, depth, order, root, c, b, i, acts);
    }
  }

  /** BFS.search. */
  class BFS<S(==,!new)> {
    const cube: Cube<S>
    var actionQueue: seq<nat>

    constructor (cube: Cube<S>)
      ensures this.cube == cube && actionQueue == []
    {
      this.cube := cube;
      actionQueue := [];
    }

    /** Searcher.reset: a new, empty action queue. */
    method Reset()
      modifies this
      ensures actionQueue == []
    {
      actionQueue := [];
    }

    /** On Solved the queue is the chain of back-pointed actions from the root to
        the expanded state followed by the solving action, and it replays to a
        solved state; it is a shortest solution: no sequence of fewer actions
        solves the root. No key is discovered twice (order lists the keys in
        insertion order without repetition). */
    method Search(root: S, fuel: nat) returns (r: BfsOutcome, ghost discovered: map<S, Back<S>>,
                                              ghost order: seq<S>, ghost expanded: S)
      modifies this
      ensures cube.isSolved(root) ==> r == Solved && actionQueue == []
      ensures r != Solved ==> actionQueue == []
      ensures r == Solved ==> cube.isSolved(cube.Replay(root, actionQueue)) && cube.ValidActions(actionQueue)
      ensures r == Solved ==>
                forall acts :: cube.ValidActions(acts) && |acts| < |actionQueue| ==> !cube.isSolved(cube.Replay(root, acts))
      ensures !cube.isSolved(root) ==>
                && BackPointers(cube, discovered, root)
                && |order| > 0 && order[0] == root
                && (forall i, j :: 0 <= i < j < |order| ==> order[i] != order[j])
                && (forall t :: t in discovered <==> t in order)
      ensures r == Solved && !cube.isSolved(root) ==>
                && |actionQueue| > 0
                && ChainFrom(discovered, root, expanded, actionQueue[..|actionQueue| - 1])
                && cube.rotate(expanded, actionQueue[|actionQueue| - 1]) !in discovered
                && cube.isSolved(cube.rotate(expanded, actionQueue[|actionQueue| - 1]))
    {
      Reset();
      expanded := root;
      if cube.isSolved(root) {
        r, discovered, order := Solved, map[], [];
        return;
      }
      var states: map<S, Back<S>> := map[root := Root];
      ghost var depth: map<S, nat> := map[root := 0];
      order := [root];
      var queue := [root];
      ghost var p, b := 0, 1;
      var steps := 0;
      while steps < fuel
        invariant Frontier(cube, states, depth, order, root) && actionQueue == []
        invariant p <= |order| && queue == order[p..] && Popped(cube, states, depth, order, p, b)
        decreases fuel - steps
      {
        steps := steps + 1;
        if queue == [] {
          r, discovered := QueueExhausted, states;
          return;
        }
        var state := queue[0];
        queue := queue[1..];
        var found, action, added;
        ghost var c, order0 := p, order;
        p := p + 1;
        found, action, states, depth, order, added, b := ExpandState(states, depth, order, root, state, c, b);
        if found {
          actionQueue := Reconstruct(states, depth, root, state, action);
          NoShorterSolution(cube, states, depth, order, root, c, b, action);
          discovered, expanded := states, state;
          r := Solved;
          return;
        }
        SuffixAppend(order0, queue, c, added);
        queue := queue + added;
      }
      r, discovered := OutOfTime, states;
    }

    /** The for loop of BFS.search over the actions of state, the c-th
        discovered state: skip discovered successors, stop at the first
        solved one, and discover the others, which added lists in order for
        the queue. found says whether it stopped, at which action; otherwise
        c + 1 states are expanded. */
    method ExpandState(states: map<S, Back<S>>, ghost depth: map<S, nat>, ghost order: seq<S>,
                       ghost root: S, state: S, ghost c: nat, ghost b: nat)
      returns (found: bool, action: nat, states': map<S, Back<S>>, ghost depth': map<S, nat>,
               ghost order': seq<S>, added: seq<S>, ghost b': nat)
      requires Frontier(cube, states, depth, order, root) && Layers(cube, states, depth, order, c, b, 0)
      requires state == order[c]
      ensures Frontier(cube, states', depth', order', root) && order' == order + added
      ensures found ==>
                && action < cube.actionDim && b' == b && Layers(cube, states', depth', order', c, b, action)
                && cube.rotate(state, action) !in states' && cube.isSolved(cube.rotate(state, action))
      ensures !found ==> Layers(cube, states', depth', order', c, b, cube.actionDim)
      ensures !found ==> Popped(cube, states', depth', order', c + 1, b')
    {
      states', depth', order', added := states, depth, order, [];
      var i := 0;
      while i < cube.actionDim
        invariant Frontier(cube, states', depth', order', root) && order' == order + added
        invariant i <= cube.actionDim && Layers(cube, states', depth', order', c, b, i)
      {
        found, states', depth', order', added := Visit(states', depth', order', added, root, state, c, b, i, order);
        if found {
          return true, i, states', depth', order', added, b;
        }
        i := i + 1;
      }
      LayersDone(cube, states', depth', order', c, b);
      found, action, b' := false, 0, if c + 1 < b then b else |order'|;
    }

    /** One pass of that for loop, for action i: a discovered successor is
        skipped, a solved one stops the loop, any other is discovered. */
    method Visit(states: map<S, Back<S>>, ghost depth: map<S, nat>, ghost order: seq<S>, added: seq<S>,
                 ghost root: S, state: S, ghost c: nat, ghost b: nat, i: nat, ghost order0: seq<S>)
      returns (found: bool, states': map<S, Back<S>>, ghost depth': map<S, nat>, ghost order': seq<S>,
               added': seq<S>)
      requires Frontier(cube, states, depth, order, root) && Layers(cube, states, depth, order, c, b, i)
      requires i < cube.actionDim && state == order[c] && order == order0 + added
      ensures Frontier(cube, states', depth', order', root) && order' == order0 + added'
      ensures found ==>
                && states' == states && depth' == depth && order' == order && added' == added
                && cube.rotate(state, i) !in states && cube.isSolved(cube.rotate(state, i))
      ensures !found ==> Layers(cube, states', depth', order', c, b, i + 1)
      ensures !found && cube.rotate(state, i) in states ==>
                states' == states && depth' == depth && order' == order && added' == added
      ensures !found && cube.rotate(state, i) !in states ==>
                && states' == states[cube.rotate(state, i) := From(state, i)]
                && depth' == depth[cube.rotate(state, i) := depth[state] + 1]
                && order' == order + [cube.rotate(state, i)] && added' == added + [cube.rotate(state, i)]
    {
      var next := cube.rotate(state, i);
      states', depth', order', added' := states, depth, order, added;
      if next in states {
        found := false;
        LayersKnown(cube, states, depth, order, c, b, i);
      } else if cube.isSolved(next) {
        found := true;
      } else {
        found := false;
        states' := states[next := From(state, i)];
        depth' := depth[next := depth[state] + 1];
        order' := order + [next];
        added' := added + [next];
        Discover(cube, states, depth, order, root, state, c, b, i, states', depth', order');
      }
    }

    /** The path reconstruction of BFS.search: appendleft the solving action, then
        appendleft back-pointed actions while the state has a parent. The
        queue has one action per level of the state, plus the solving one. */
    method Reconstruct(states: map<S, Back<S>>, ghost depth: map<S, nat>, ghost root: S, state: S, i: nat)
      returns (q: seq<nat>)
      requires BackPointers(cube, states, root) && depth.Keys == states.Keys && depth[root] == 0
      requires forall t :: t in states && states[t].From? ==> depth[t] == depth[states[t].parent] + 1
      requires state in states && i < cube.actionDim && cube.isSolved(cube.rotate(state, i))
      ensures |q| == depth[state] + 1 && q[|q| - 1] == i && cube.ValidActions(q)
      ensures ChainFrom(states, root, state, q[..|q| - 1])
      ensures cube.isSolved(cube.Replay(root, q))
    {
      q := [i];
      ghost var chain: seq<nat> := [];
      var tstate := state;
      while states[tstate].From?
        invariant tstate in states && q == chain + [i] && cube.ValidActions(q)
        invariant depth[tstate] + |chain| == depth[state]
        invariant ChainFrom(states, tstate, state, chain)
        decreases depth[tstate]
      {
        ChainPrepend(states, tstate, state, chain);
        chain := [states[tstate].action] + chain;
        q := [states[tstate].action] + q;
        tstate := states[tstate].parent;
      }
      assert q[..|q| - 1] == chain;
      ChainReplays(cube, states, root, root, state, chain);
      cube.ReplaySnoc(root, chain, i);
    }
  }

  /** MCTS of search.py over the graph of module SearchGraph: nodes is the arena
      of Node objects, states maps a state to the handle of its node. c is the
      exploration constant of the UCT choice, which the select oracle stands for;
      search_graph only switches the unimplemented queue shortening. */
  class MCTS<S(==,!new)> {
    const cube: Cube<S>
    const c: real
    const nu: real
    const searchGraph: bool
    var nodes: seq<Node<S>>
    var states: map<S, nat>
    var actionQueue: seq<nat>

    ghost predicate Valid()
      reads this
    {
      Inv(cube, nodes, states)
    }

    constructor (cube: Cube<S>, c: real, nu: real, searchGraph: bool)
      requires cube.Valid()
      ensures Valid() && this.cube == cube && this.c == c && this.nu == nu && this.searchGraph == searchGraph
      ensures nodes == [] && states == map[] && actionQueue == []
    {
      this.cube, this.c, this.nu, this.searchGraph := cube, c, nu, searchGraph;
      nodes, states, actionQueue := [], map[], [];
    }

    /** MCTS.clean_tree: forget the whole graph. */
    method CleanTree()
      requires cube.Valid()
      modifies this
      ensures Valid() && nodes == [] && states == map[] && actionQueue == old(actionQueue)
    {
      nodes, states := [], map[];
    }

    method Reset()
      modifies this
      ensures actionQueue == [] && nodes == old(nodes) && states == old(states)
    {
      actionQueue := [];
    }

    /** MCTS.search: forget the old graph, answer at once for a solved start
        state, else register the root node with the network's output and
        expand it; then, for each unit of fuel, descend to a leaf and expand
        it. On success the queue is path followed by the solving action:
        path is empty when the expansion of the root solved, and otherwise it
        is the descent of the last round, a walk from the root through
        expanded nodes to a leaf. The queue replays from start to a solved
        state; on failure it is empty. descentFuel bounds each descent (see
        SearchLeaf); a descent that runs out ends the search unsolved. */
    method Search(start: S, evaluate: S -> (seq<real>, real), select: Node<S> -> nat, fuel: nat, descentFuel: nat)
      returns (solved: bool, ghost path: seq<nat>, ghost trail: seq<nat>)
      requires cube.Valid() && forall n :: select(n) < cube.actionDim
      modifies this
      ensures Valid()
      ensures cube.isSolved(start) ==> solved && actionQueue == [] && nodes == [] && states == map[]
      ensures !cube.isSolved(start) ==> start in states && nodes[states[start]].state == start
      ensures !cube.isSolved(start) && (!solved || path != []) ==> !nodes[states[start]].isLeaf
      ensures solved && !cube.isSolved(start) ==>
                && |actionQueue| == |path| + 1 && actionQueue[..|path|] == path
                && Walk(cube, nodes, states[start], path, trail) && nodes[trail[|path|]].isLeaf
                && cube.isSolved(cube.rotate(nodes[trail[|path|]].state, actionQueue[|path|]))
      ensures solved ==> cube.isSolved(cube.Replay(start, actionQueue))
      ensures !solved ==> actionQueue == []
    {
      CleanTree();
      Reset();
      path, trail := [], [];
      if cube.isSolved(start) {
        return true, path, trail;
      }
      solved := Begin(start, evaluate);
      trail := [states[start]];
      if solved {
        WalkStart(cube, nodes, states[start]);
      }
      var steps := 0;
      var stop := solved;
      while steps < fuel && !stop
        invariant Valid() && start in states && nodes[states[start]].state == start
        invariant !solved ==> !nodes[states[start]].isLeaf
        invariant solved ==> stop && cube.isSolved(cube.Replay(start, actionQueue))
        invariant solved ==>
                    && |actionQueue| == |path| + 1 && actionQueue[..|path|] == path
                    && Walk(cube, nodes, states[start], path, trail) && nodes[trail[|path|]].isLeaf
                    && cube.isSolved(cube.rotate(nodes[trail[|path|]].state, actionQueue[|path|]))
        invariant !solved ==> actionQueue == []
        decreases fuel - steps
      {
        steps := steps + 1;
        stop, solved, path, trail := Round(start, evaluate, select, descentFuel);
      }
    }

    /** The start of MCTS.search for an unsolved state: the root node with
        the network's output, registered under its state, then expanded. A
        solving action found there is the whole queue, and the root stays a
        leaf; otherwise the root is expanded. */
    method Begin(start: S, evaluate: S -> (seq<real>, real)) returns (solved: bool)
      requires cube.Valid() && actionQueue == []
      modifies this
      ensures Valid() && start in states && nodes[states[start]].state == start
      ensures solved ==> |actionQueue| == 1 && cube.isSolved(cube.rotate(start, actionQueue[0]))
      ensures solved ==> nodes[states[start]].isLeaf && cube.isSolved(cube.Replay(start, actionQueue))
      ensures !solved ==> actionQueue == [] && !nodes[states[start]].isLeaf
    {
      var (p, v) := evaluate(start);
      RootInv(cube, start, p, v);
      nodes, states := [NewNode(cube, start, p, v, None)], map[start := 0];
      ghost var n1, s1 := nodes, states;
      var solveAction, created, maxVal := ExpandLeaf(0, evaluate);
      if solveAction != -1 {
        actionQueue := [solveAction];
        assert cube.Replay(start, actionQueue) == cube.Replay(cube.rotate(start, solveAction), []);
        return true;
      }
      ExpansionRegistered(cube, n1, s1, nodes, states, 0, created, evaluate, maxVal, start);
      solved := false;
    }

    /** One round of the loop of MCTS.search: descend from the root to a leaf
        and expand it. stop and solved say whether the search ends and with
        which answer. On a solve the queue is the descent path followed by
        the solving action: path walks from the root through expanded nodes
        to a leaf, and the action leads from that leaf to a solved state. An
        expanded root stays expanded. */
    method Round(start: S, evaluate: S -> (seq<real>, real), select: Node<S> -> nat, descentFuel: nat)
      returns (stop: bool, solved: bool, ghost path: seq<nat>, ghost trail: seq<nat>)
      requires Valid() && start in states && actionQueue == [] && forall n :: select(n) < cube.actionDim
      modifies this
      ensures Valid() && start in states && states[start] == old(states)[start]
      ensures !old(nodes)[states[start]].isLeaf ==> !nodes[states[start]].isLeaf
      ensures solved ==> stop && cube.isSolved(cube.Replay(start, actionQueue))
      ensures solved ==>
                && |actionQueue| == |path| + 1 && actionQueue[..|path|] == path
                && Walk(cube, nodes, states[start], path, trail) && nodes[trail[|path|]].isLeaf
                && cube.isSolved(cube.rotate(nodes[trail[|path|]].state, actionQueue[|path|]))
      ensures !solved ==> actionQueue == []
    {
      var root := states[start];
      var reached, descent, leaf, t := SearchLeaf(root, select, descentFuel);
      path, trail := descent, t;
      if !reached {
        return true, false, path, trail;
      }
      ghost var n1, s1 := nodes, states;
      var solveAction, created, maxVal := ExpandLeaf(leaf, evaluate);
      if solveAction != -1 {
        actionQueue := descent + [solveAction];
        SolvedQueue(cube, n1, s1, start, root, path, trail, solveAction);
        WalkLinkOnly(cube, n1, nodes, root, path, trail, leaf);
        assert actionQueue[..|path|] == path;
        return true, true, path, trail;
      }
      ExpansionRegistered(cube, n1, s1, nodes, states, leaf, created, evaluate, maxVal, start);
      stop, solved := false, false;
    }

    /** MCTS.search_leaf: from the root, follow the chosen action out of each
        non-leaf node, bumping N by 1 and L by nu at that action, until a leaf.
        trail lists the nodes passed and then the one reached; Visits counts
        how often the descent took action a at node h. fuel bounds the descent
        (reached is false when it ran out before a leaf). */
    method SearchLeaf(root: nat, select: Node<S> -> nat, fuel: nat)
      returns (reached: bool, path: seq<nat>, leaf: nat, ghost trail: seq<nat>)
      requires Valid() && root < |nodes|
      requires forall n :: select(n) < cube.actionDim
      modifies this
      ensures Valid() && states == old(states) && actionQueue == old(actionQueue)
      ensures |path| <= fuel && (!reached ==> |path| == fuel)
      ensures |trail| == |path| + 1 && leaf == trail[|path|] && leaf < |nodes|
      ensures reached <==> nodes[leaf].isLeaf
      ensures Walk(cube, nodes, root, path, trail)
      ensures Bumped(old(nodes), nodes, nu, trail[..|path|], path)
    {
      var ns;
      ns, path, leaf, trail := Descend(cube, nodes, states, root, select, nu, fuel);
      nodes := ns;
      reached := ns[leaf].isLeaf;
    }

    /** MCTS.expand_leaf: scan the empty slots of the leaf from the highest
        down and return the first action whose successor is solved, linking
        registered successors on the way; otherwise finish as ExpandRest
        and return -1. created lists the actions that got a new child, maxVal
        the value backed up. */
    method ExpandLeaf(leaf: nat, evaluate: S -> (seq<real>, real))
      returns (solveAction: int, ghost created: seq<nat>, ghost maxVal: real)
      requires Valid() && leaf < |nodes|
      modifies this
      ensures Valid() && actionQueue == old(actionQueue)
      ensures -1 <= solveAction < cube.actionDim && |old(nodes)[leaf].neighs| == cube.actionDim
      ensures forall a :: 0 <= a && solveAction < a < cube.actionDim && old(nodes)[leaf].neighs[a].None? ==>
                !cube.isSolved(cube.rotate(old(nodes)[leaf].state, a))
      ensures solveAction >= 0 ==>
                && old(nodes)[leaf].neighs[solveAction].None?
                && cube.isSolved(cube.rotate(old(nodes)[leaf].state, solveAction))
                && states == old(states) && LinkOnly(old(nodes), nodes, leaf)
      ensures solveAction == -1 ==> Expansion(cube, old(nodes), old(states), nodes, states, leaf, created, evaluate, maxVal)
    {
      ghost var n0 := nodes;
      assert Shaped(n0[leaf], cube.actionDim);
      var noNeighs := EmptySlots(nodes[leaf].neighs);
      var ns, unknown;
      solveAction, ns, unknown := Scan(cube, nodes, states, leaf, noNeighs);
      ScanOrder(cube, n0, ns, states, leaf, noNeighs, solveAction);
      if solveAction >= 0 {
        EmptySlotsSpec(n0[leaf].neighs, noNeighs);
        nodes := ns;
        created, maxVal := [], 0.0;
      } else {
        var st, v;
        ns, st, created, v := ExpandRest(cube, n0, states, ns, leaf, noNeighs, unknown, evaluate);
        nodes, states, maxVal := ns, st, v;
      }
    }
  }
}
