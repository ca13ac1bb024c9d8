# rl-rubiks search and training core, in Dafny

rl-rubiks trains a network by Autodidactic Iteration (ADI) to solve the
Rubik's cube, and solves it with tree searches guided by that network. This
project models the searchers of `src/rubiks/solving/search.py`, the TreeAgent
that drives them, and the integer and target logic of the two training
modules. It then proves what these promise about their results.

The model covers these searchers:
- random depth-first search;
- breadth-first search (BFS) with back-pointers;
- Monte Carlo tree search (MCTS) over a deduplicated search graph.

It also covers this training logic:
- the evaluation schedule;
- the batch and feed-forward slices;
- the doubling retry loop of the feed-forward;
- the reward, argmax and fix masks behind the ADI policy and value targets;
- the batch index generator of the older training module.

Modules:

- `Wrappers` (wrappers.dfy): `Option`, `Result` and the two Python errors the
  core can raise on bad integers (`IndexError`, `ZeroDivisionError`).
- `Numerics` (numerics.dfy): `max`, torch's first-maximum `argmax`, ceiling
  division and `range(0, stop, step)`.
- `Puzzle` (puzzle.dfy): the cube as a transition system. It has `rotate` by
  action index, `is_solved`, `rev_action` and `action_dim`, plus `Replay` of an
  action sequence. The cube's own representation is a parameter.
- `SearchGraph` (search_graph.dfy): `Node` and the MCTS graph as an arena of
  nodes with a state-to-handle dictionary. It holds the graph invariant (edges
  are correct and bidirectional, an expanded node has every slot filled, one
  node per state) and the operations of `search_leaf` and `expand_leaf` that
  keep it.
- `Search` (search.dfy): the classes `RandomDFS`, `BFS` and `MCTS`, whose
  fields and methods follow the Python classes.
- `Agents` (agents.dfy): `TreeAgent.act`, as a class method. A value-level
  `Respond`/`Run` states how a sequence of calls behaves.
- `LibTrain` (lib_train.dfy): `librubiks/train.py`.
- `RubiksTrain` (train.dfy): `src/rubiks/train.py`.

Outside inputs are parameters of the operations that use them:
- The network is an oracle function from a state to (policy, value).
- The UCT choice in `search_leaf` is an oracle `select` from a node to an
  action.
- Random draws and shuffles are sequences that are passed in.
- Wall-clock time limits are step budgets (fuel).

## Model

| member | source | states |
|---|---|---|
| Numerics.ArgMax | librubiks/train.py:316 | torch argmax, taken as the first maximum: the result is an index of a maximal entry, and no earlier entry reaches that maximum |
| Numerics.ArgMaxIsMax | src/rubiks/train.py:170 | the entry at the argmax is the maximum of the sequence |
| Numerics.Max | src/rubiks/solving/search.py:252 | Python max over a non-empty sequence: it bounds every entry and is one of them |
| Numerics.CeilDiv | librubiks/train.py:405 | ceil(a/b) for b > 0: the least q with a <= q*b |
| Numerics.StepRangeMembers | librubiks/train.py:66 | np.arange(0, stop, step) holds exactly the multiples of step below stop |
| Numerics.FlatIndex | librubiks/train.py:315 | reshape(-1, 12): flat position row*12+col lies in the array, and division and remainder by 12 recover row and column |
| SearchGraph.NewNode | src/rubiks/solving/search.py:14-28 | a new node is a leaf with zero N, W and L and no neighbours; a child points back to its parent at slot rev_action(a), where W holds the parent's value |
| SearchGraph.RootInv | src/rubiks/solving/search.py:172-174 | the graph holding only the root node satisfies the graph invariant |
| SearchGraph.AddChildInv | src/rubiks/solving/search.py:244-247 | attaching a node for an unregistered successor keeps the invariant and registers the new state at the new handle |
| SearchGraph.Link | src/rubiks/solving/search.py:226-227 | the leaf's slot a points to the known node, and the known node's slot rev_action(a) points back to the leaf |
| SearchGraph.LinkInv | src/rubiks/solving/search.py:225-227 | linking a registered successor in both directions keeps the invariant |
| SearchGraph.Bump | src/rubiks/solving/search.py:202-203 | N grows by 1 and L by nu at exactly one slot; W and the graph structure are unchanged |
| SearchGraph.EmptySlotsSpec | src/rubiks/solving/search.py:213 | no_neighs lists, in increasing order, exactly the empty neighbour slots |
| SearchGraph.AbsentSpec | src/rubiks/solving/search.py:214-228 | the positions kept in unknown_neighs are, in increasing order, exactly those whose successor is not registered |
| SearchGraph.VisitsSpec | src/rubiks/solving/search.py:197-205 | a slot's visit count is bounded by the path length, and it is zero iff the descent never took that action at that node |
| SearchGraph.RepeatedIsProduct | src/rubiks/solving/search.py:203 | virtual loss collected over k visits is k*nu |
| SearchGraph.Descend | src/rubiks/solving/search.py:196-207 | the descent keeps the invariant; it follows correct edges out of non-leaf nodes only; the path replays from the root state to the reached node's state; N and L grew by exactly the visits; it ends at a leaf unless the fuel ran out |
| SearchGraph.Scan | src/rubiks/solving/search.py:218-228 | the reversed scan returns an empty slot with a solved successor or -1; every empty slot above the answer has an unsolved successor and is linked when its successor is registered; on -1, unknown is exactly the unregistered positions |
| SearchGraph.ScanOrder | src/rubiks/solving/search.py:218-221 | no empty slot above the returned action leads to a solved state |
| SearchGraph.PendingExact | src/rubiks/solving/search.py:230 | the actions that get new children are, in increasing order, exactly the empty slots whose successor is unregistered |
| SearchGraph.Generate | src/rubiks/solving/search.py:244-247 | child j is the network-evaluated NewNode child for acts[j], at handle old size + j, registered and in the leaf's slot; the invariant holds |
| SearchGraph.CreatedStep | src/rubiks/solving/search.py:245-247 | distinct actions give distinct successors, so each creation keeps the later successors unregistered |
| SearchGraph.BackUpNeighbours | src/rubiks/solving/search.py:252-256 | W at rev_action(a) is set to the value for every non-leaf neighbour a, and nothing else changes |
| SearchGraph.BackedUpDone | src/rubiks/solving/search.py:253-256 | once the back-up is done, the updated nodes are exactly the non-leaf nodes whose slot leads to the leaf, and the invariant holds |
| SearchGraph.MarkExpandedInv | src/rubiks/solving/search.py:259 | clearing is_leaf once all slots are filled keeps the invariant |
| SearchGraph.ExpandRest | src/rubiks/solving/search.py:230-260 | without a solved successor, the leaf is expanded with every slot filled; it gains exactly the missing children; old nodes change only in empty slots and in W at slots leading to the leaf; max_val is the largest neighbour value |
| SearchGraph.SolvedQueue | src/rubiks/solving/search.py:188-189 | path followed by the solving action replays from the start to a solved state |
| SearchGraph.ExpansionRegistered | src/rubiks/solving/search.py:247 | expansion never drops or moves a registered state |
| Search.RandomDFS.Step | src/rubiks/solving/search.py:90-93 | the step returns the drawn action, the rotated state and whether that state is solved |
| Search.RandomDFS.Search | src/rubiks/solving/search.py:50-60 | a solved start gives an empty queue; the queue is a prefix of the draws; success means it replays to a solved state and no shorter prefix did; failure means every draw was used and none solved |
| Search.RandomDFS.constructor | src/rubiks/solving/search.py:45-47 | a new searcher starts with an empty action queue |
| Search.RandomDFS.Reset | src/rubiks/solving/search.py:65-67 | the action queue is empty |
| Search.ChainReplays | src/rubiks/solving/search.py:116-121 | following back-pointers from the root to a state gives an action sequence that replays to it |
| Search.FrontierAdd | src/rubiks/solving/search.py:122-124 | discovering an unseen successor keeps the back-pointers correct and the discovery order free of repeats |
| Search.BFS.constructor | src/rubiks/solving/search.py:45-47 | a new searcher starts with an empty action queue |
| Search.BFS.Reset | src/rubiks/solving/search.py:65-67 | the action queue is empty |
| Search.BFS.Search | src/rubiks/solving/search.py:99-125 | a solved root gives an empty queue; success means the queue is the back-pointer chain to the expanded state plus an action to an undiscovered solved successor, it consists of valid actions and replays to solved, and no shorter sequence of valid actions solves the root; every other outcome leaves the queue empty; no state is discovered twice |
| Search.BFS.ExpandState | src/rubiks/solving/search.py:109-124 | the for loop over one popped state either stops at an action whose successor is undiscovered and solved, or expands the state fully, every one of its actions then reaching a discovered state at most one level below it; discoveries are appended in order and the breadth-first layering holds for the next pop |
| Search.BFS.Visit | src/rubiks/solving/search.py:112-124 | a discovered successor is skipped with the map, levels and queue unchanged; an undiscovered solved one stops the loop with nothing changed; any other is recorded with back-pointer (state, i) one level below the popped state and appended to the queue |
| Search.WithinLevel | src/rubiks/solving/search.py:106-124 | while a state of level d is expanded, every state that at most d valid actions reach from the root is already discovered, at a level no deeper than the number of actions |
| Search.NoShorterSolution | src/rubiks/solving/search.py:114-121 | while a state of level d is expanded, no sequence of at most d valid actions solves the root, so the solution found there is a shortest one |
| Search.BFS.Reconstruct | src/rubiks/solving/search.py:117-120 | the appendleft loop yields the back-pointer chain followed by the solving action: one valid action per level of the expanded state plus the solving one, replaying from the root to a solved state |
| Search.MCTS.constructor | src/rubiks/solving/search.py:154-162 | the hyper-parameters are stored and the graph is empty |
| Search.MCTS.CleanTree | src/rubiks/solving/search.py:267-268 | the graph is empty and the queue is unchanged |
| Search.MCTS.Reset | src/rubiks/solving/search.py:65-67 | the action queue is empty and the graph is unchanged |
| Search.MCTS.Search | src/rubiks/solving/search.py:165-192 | the graph invariant holds; a solved start gives True, an empty queue and an empty graph; otherwise the start is registered and its node expanded; True means the queue is a walk of graph edges from the start node to a leaf followed by one action that solves the leaf's state, and it replays from the start to a solved state; False leaves it empty |
| Search.MCTS.Begin | src/rubiks/solving/search.py:172-181 | the root is registered for the start state; a solving action found there is the whole one-element queue; otherwise the queue is empty and the root is expanded |
| Search.MCTS.Round | src/rubiks/solving/search.py:184-191 | one descent plus expansion keeps the invariant, the root's handle and its expansion; a solve sets the queue to the descent's actions, a walk of graph edges from the root to a leaf, followed by the action that solves the leaf's state |
| Search.MCTS.SearchLeaf | src/rubiks/solving/search.py:194-207 | the registrations are unchanged; the walk follows correct edges; N and L are bumped by exactly the visits; reached iff the final node is a leaf |
| Search.MCTS.ExpandLeaf | src/rubiks/solving/search.py:209-260 | it returns the highest empty slot with a solved successor, after only links; or it returns -1 after a full expansion as in ExpandRest |
| Agents.Respond | src/rubiks/solving/agents.py:46-52 | False exactly when the queue is empty after a search; otherwise it pops the front of the queue, searching first when the queue is empty and no search has run; popleft on an empty found queue raises |
| Agents.TreeAgent.Act | src/rubiks/solving/agents.py:46-52 | the answer and the new queue and has_searched are those of Respond on the old ones |
| Agents.TreeAgent.constructor | src/rubiks/solving/agents.py:37-44 | the agent starts with an empty queue and has_searched False |
| Agents.SearchAtMostOnce | src/rubiks/solving/agents.py:47-50 | over any sequence of calls the search runs at most once, and never after it has run |
| Agents.RunHandsOutQueue | src/rubiks/solving/agents.py:47-52 | a pending queue is handed out front first, one action per call, whatever the states |
| Agents.RunExhausted | src/rubiks/solving/agents.py:48 | after the search and with the queue used up, every call answers False |
| Agents.RunFresh | src/rubiks/solving/agents.py:46-52 | a fresh agent's i-th answer is the i-th action the first search found, False after them, or IndexError on the first call when the search found nothing |
| LibTrain.EvaluationRollouts | librubiks/train.py:64-74 | the method computes Schedule, that is, the evaluation rollouts or the IndexError |
| LibTrain.Schedule | librubiks/train.py:64-74 | the schedule is empty exactly when the evaluation interval is 0 |
| LibTrain.ScheduleShape | librubiks/train.py:64-74 | it fails iff rollouts is 0 or both are 1; otherwise it starts at 0, ends at rollouts-1, strictly increases within range, and has inner entries interval*i-1 |
| LibTrain.ScheduleMembers | librubiks/train.py:64-74 | for interval > 0, r is scheduled iff r is the first rollout, the last rollout, or r+1 is a multiple of interval |
| LibTrain.GetBatches | librubiks/train.py:400-410 | bsize 0 raises ZeroDivisionError; size 0 raises IndexError; otherwise there are ceil(size/bsize) slices starting at multiples of bsize; they tile [0, size); all but the last have width bsize and the last is non-empty and no wider |
| LibTrain.TilesPartition | librubiks/train.py:408-409 | slices that tile [lo, hi) hold x iff x lies in it, and then exactly one slice holds it |
| LibTrain.ConsecutiveTiles | librubiks/train.py:253 | equal-width slices laid end to end tile [0, count*width) |
| LibTrain.Reward | librubiks/train.py:292-296 | 1 for a solved substate (0 under reward0), -1 otherwise |
| LibTrain.Mask | librubiks/train.py:318-325 | it fails iff schultzfix runs with depth 0; otherwise the masked values have the length of the input, and value i is 0 exactly for a solved scrambled state under lapanfix or for i a multiple of depth under schultzfix, and the unmasked value elsewhere |
| LibTrain.AdiTargets | librubiks/train.py:313-325 | it fails iff schultzfix runs with depth 0; each policy target is the first argmax of the rewarded row; each value target is that maximum, or 0 where the lapanfix or schultzfix mask applies |
| LibTrain.Train.constructor | librubiks/train.py:61 | adi_ff_batches starts at 1 |
| LibTrain.Train.FfSlices | librubiks/train.py:249-254 | there are exactly adi_ff_batches equal slices of width data_points//batches + 1; they lie end to end from 0 and cover every data point |
| LibTrain.Train.AdiFeedForward | librubiks/train.py:301-310 | every failed try was an allocation error and doubled adi_ff_batches; success returns the values of the current slices; another error is re-raised |
| RubiksTrain.GenBatchesIdcs | src/rubiks/train.py:209-218 | bsize 0 raises ZeroDivisionError; otherwise it yields size//bsize batches of bsize indices each |
| RubiksTrain.GenBatchesDisjoint | src/rubiks/train.py:214-218 | the yielded indices are below size and never repeat, within or across batches |
| RubiksTrain.GenBatchesDropsTail | src/rubiks/train.py:214-218 | the shuffled index at position t is yielded iff t lies before the size % bsize remainder |
| RubiksTrain.DataIndexDistinct | src/rubiks/train.py:172 | i*sequence_length+j lies below N_data and differs for each (game, step) pair |
| RubiksTrain.AdiTarget | src/rubiks/train.py:157-174 | the policy target is the first argmax of the substate values plus rewards; the value target is that maximum, or 0 for a solved state |
| RubiksTrain.AdiTrainData | src/rubiks/train.py:134-178 | the two target arrays are fresh, of length games*sequence_length, and hold AdiTarget of state j of game i at i*sequence_length+j |
| RubiksTrain.AdiTargetIsLapanFix | librubiks/train.py:313-320 | the per-state targets of the old module equal the batched lapanfix targets of librubiks |
| RubiksTrain.ShouldEvaluate | src/rubiks/train.py:118 | an evaluation needs a nonzero interval and comes no earlier than rollout interval-1 |
| RubiksTrain.EvaluationAgreement | src/rubiks/train.py:118 | the old loop's per-rollout test and the librubiks schedule agree, except that the schedule adds the first and last rollouts and raises IndexError in the edge cases |

## Left out

- The network and softmax: the network is the oracle `evaluate`. The policy stored at the root is the raw network output and the children's is its softmax; both are whatever the oracle returns.
- UCT in `search_leaf`, which is float arithmetic over P, N, W and L: it is the oracle `select`. The model proves the properties that hold for every choice.
- Time limits, `TickTock` and sections: step budgets (`fuel`) replace them. `BFS.Search` reports `OutOfTime` when the budget ends.
- Search.MCTS.SearchLeaf: the source has no bound on the descent. The model bounds it with `descentFuel`, and an exhausted descent ends the search unsolved.
- `MCTS._shorten_action_queue`: its body is `pass`, so the queue is unchanged. `searchGraph` is kept as a field only.
- Search.MCTS.Search: a solved start returns before the root is registered, so the graph stays empty. This follows the code (search.py:170), not a root-only graph.
- `DeepSearcher`, `PolicySearch` and the other agents: they are not part of this model.
- `with_mt`, which marks multithreading: it is not part of this model.
- Cube.action_space: answers are action indices, and `Cube.action_space[i]` is a lookup in a constant table.
- Agents.TreeAgent.Act: the searcher's queue is a field of the agent, and the searcher's `search(state, time_limit)` is the function `search`. `time_limit` is folded into it.
- Random draws (`np.random.randint`, `np.random.shuffle`): they are parameters (`draws`, `perm`).
- LibTrain.GetBatches: the source shuffles an index array and then ignores it. `np.ceil(size/bsize)` is exact division for the sizes in use, so the model uses integer ceiling division.
- LibTrain.Schedule: a negative interval or rollout count is not modelled (`nat`). np.arange with negative steps is outside the model.
- LibTrain.AdiTargets: the sequence scrambler, one-hot encoding and tensors are left out. values, solved flags and depth are inputs, and a negative depth is not modelled.
- LibTrain.Train.AdiFeedForward: the source retries forever while allocation fails. The model stops after `fuel` doublings with `OutOfAttempts`.
- Loss weights (librubiks/train.py:330-333, src/rubiks/train.py:176): they are float arithmetic with no integer content and are left out.
- The alpha and learning-rate schedules, optimisation, evaluation runs, logging, plotting and saving: they are left out.
- The training loop of src/rubiks/train.py:64-132 refers to names it never defines. Only its evaluation test (line 118) is modelled, as RubiksTrain.ShouldEvaluate.
- Floats are `real`, with no rounding. The float32 and int64 dtypes of the target arrays are not modelled.
