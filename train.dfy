/** The integer side of src/rubiks/train.py, the older trainer: the batch index
    generator _gen_batches_idcs, the row-major data index and the target rule
    of ADI_traindata, and the test in train that decides after which rollouts
    the network is evaluated. */
module RubiksTrain {
  import opened Wrappers
  import opened Numerics
  import Puzzle
  import LibTrain

  // ---------------------------------------------------------------------------
  // Batch indices (_gen_batches_idcs)
  // ---------------------------------------------------------------------------

  /** perm is an ordering of 0 .. size - 1, as np.random.shuffle leaves
      np.arange(size). */
  predicate IsPermutation(perm: seq<nat>, size: nat) {
    && |perm| == size
    && (forall i :: 0 <= i < size ==> perm[i] < size)
    && (forall i, j :: 0 <= i < j < size ==> perm[i] != perm[j])
  }

  /** _gen_batches_idcs, with the shuffled indices given as perm: the
      consecutive runs of bsize entries of perm, as many as fit whole. A zero
      bsize fails on size // bsize. */
  function GenBatchesIdcs(size: nat, bsize: nat, perm: seq<nat>): (r: Result<seq<seq<nat>>, Error>)
    requires IsPermutation(perm, size)
    ensures r.Failure? <==> bsize == 0
    ensures r.Failure? ==> r.error == DivisionByZero
    ensures r.Success? ==> |r.value| == size / bsize && forall b :: 0 <= b < |r.value| ==> |r.value[b]| == bsize
  {
    if bsize == 0 then Failure(DivisionByZero)
    else
      var nbatches := size / bsize;
      Success(seq(nbatches, b requires 0 <= b < nbatches =>
                BatchFits(size, bsize, b);
                Batch(perm, bsize, b)))
  }

  /** idcs[batch * bsize:(batch + 1) * bsize] for a batch that fits whole. */
  function Batch(perm: seq<nat>, bsize: nat, b: nat): (r: seq<nat>)
    requires b * bsize + bsize <= |perm|
    ensures |r| == bsize
  {
    perm[b * bsize .. b * bsize + bsize]
  }

  lemma BatchFits(size: nat, bsize: nat, b: nat)
    requires bsize > 0 && b < size / bsize
    ensures b * bsize + bsize <= size
  {
    DivBounds(size, bsize);
    MulMono(b + 1, size / bsize, bsize);
  }

  /** Whether index x is handed out in some batch. */
  ghost predicate Yielded(batches: seq<seq<nat>>, x: nat) {
    exists b :: 0 <= b < |batches| && x in batches[b]
  }

  /** Entry i of batch b is entry b * bsize + i of perm, a position before
      (size / bsize) * bsize. */
  lemma BatchEntry(size: nat, bsize: nat, perm: seq<nat>, b: nat, i: nat)
    requires IsPermutation(perm, size) && bsize > 0
    requires b < size / bsize && i < bsize
    ensures DataIndex(b, i, bsize) < (size / bsize) * bsize <= size
    ensures GenBatchesIdcs(size, bsize, perm).value[b][i] == perm[DataIndex(b, i, bsize)]
  {
    FlatIndex(b, i, size / bsize, bsize);
    DivBounds(size, bsize);
    BatchFits(size, bsize, b);
  }

  /** Every index handed out is below size, and no index is handed out twice,
      neither within one batch nor across two. */
  lemma GenBatchesDisjoint(size: nat, bsize: nat, perm: seq<nat>)
    requires IsPermutation(perm, size) && bsize > 0
    ensures var batches := GenBatchesIdcs(size, bsize, perm).value;
            && (forall b, i :: 0 <= b < |batches| && 0 <= i < |batches[b]| ==> batches[b][i] < size)
            && (forall b1, i1, b2, i2 ::
                  (0 <= b1 < |batches| && 0 <= i1 < bsize && 0 <= b2 < |batches| && 0 <= i2 < bsize &&
                   (b1 != b2 || i1 != i2)) ==> batches[b1][i1] != batches[b2][i2])
  {
    var batches := GenBatchesIdcs(size, bsize, perm).value;
    forall b, i | 0 <= b < |batches| && 0 <= i < |batches[b]|
      ensures batches[b][i] < size
    {
      BatchEntry(size, bsize, perm, b, i);
    }
    forall b1, i1, b2, i2 |
      0 <= b1 < |batches| && 0 <= i1 < bsize && 0 <= b2 < |batches| && 0 <= i2 < bsize && (b1 != b2 || i1 != i2)
      ensures batches[b1][i1] != batches[b2][i2]
    {
      BatchEntry(size, bsize, perm, b1, i1);
      BatchEntry(size, bsize, perm, b2, i2);
      DataIndexDistinct(b1, i1, b2, i2, |batches|, bsize);
    }
  }

  /** The indices handed out are exactly those at the first
      (size / bsize) * bsize positions of perm: the last size % bsize entries
      of the permutation are never used. */
  lemma GenBatchesDropsTail(size: nat, bsize: nat, perm: seq<nat>, t: nat)
    requires IsPermutation(perm, size) && bsize > 0 && t < size
    ensures Yielded(GenBatchesIdcs(size, bsize, perm).value, perm[t]) <==> t < size - size % bsize
  {
    var batches := GenBatchesIdcs(size, bsize, perm).value;
    var nb := size / bsize;
    DivModUnique(size, bsize, nb, size % bsize);
    assert size - size % bsize == nb * bsize;
    if t < nb * bsize {
      var b, i := t / bsize, t % bsize;
      DivModUnique(t, bsize, b, i);
      if b >= nb {
        MulMono(nb, b, bsize);
      }
      BatchEntry(size, bsize, perm, b, i);
      assert batches[b][i] == perm[t];
    }
    if Yielded(batches, perm[t]) {
      var b :| 0 <= b < nb && perm[t] in batches[b];
      var i :| 0 <= i < bsize && batches[b][i] == perm[t];
      BatchEntry(size, bsize, perm, b, i);
    }
  }

  // ---------------------------------------------------------------------------
  // Training data (ADI_traindata)
  // ---------------------------------------------------------------------------

  /** current_idx: the position of step j of game i in the flat data arrays. */
  function DataIndex(game: nat, step: nat, seqLen: nat): nat {
    game * seqLen + step
  }

  /** The data index enumerates the positions row by row: each (game, step)
      pair gets its own position, below games * seqLen. */
  lemma DataIndexDistinct(g1: nat, s1: nat, g2: nat, s2: nat, games: nat, seqLen: nat)
    requires g1 < games && s1 < seqLen && g2 < games && s2 < seqLen
    ensures DataIndex(g1, s1, seqLen) < games * seqLen
    ensures DataIndex(g1, s1, seqLen) == DataIndex(g2, s2, seqLen) <==> g1 == g2 && s1 == s2
  {
    FlatIndex(g1, s1, games, seqLen);
    FlatIndex(g2, s2, games, seqLen);
  }

  /** The values of the ActionDim substates of s, each plus its reward: 1 when
      the substate is solved and -1 otherwise. */
  function SubstateValues<S(!new)>(cube: Puzzle.Cube<S>, value: S -> real, s: S): seq<real> {
    seq(LibTrain.ActionDim, k requires 0 <= k < LibTrain.ActionDim =>
      value(cube.rotate(s, k)) + (if cube.isSolved(cube.rotate(s, k)) then 1.0 else -1.0))
  }

  /** The targets of one scrambled state s: the first action whose substate has
      the largest reward-adjusted value, and that value, unless s itself is
      solved, when the value target is 0. */
  function AdiTarget<S(!new)>(cube: Puzzle.Cube<S>, value: S -> real, s: S): (t: (nat, real))
    ensures t.0 < LibTrain.ActionDim
    ensures forall k :: 0 <= k < LibTrain.ActionDim ==> SubstateValues(cube, value, s)[k] <= SubstateValues(cube, value, s)[t.0]
    ensures forall k :: 0 <= k < t.0 ==> SubstateValues(cube, value, s)[k] < SubstateValues(cube, value, s)[t.0]
    ensures cube.isSolved(s) ==> t.1 == 0.0
    ensures !cube.isSolved(s) ==> t.1 == SubstateValues(cube, value, s)[t.0]
  {
    var w := SubstateValues(cube, value, s);
    var policy := ArgMax(w);
    (policy, if cube.isSolved(s) then 0.0 else w[policy])
  }

  /** Position i * seqLen + j of the target arrays holds the targets of
      states[i][j]. */
  ghost predicate TargetsAt<S(!new)>(cube: Puzzle.Cube<S>, value: S -> real, states: seq<seq<S>>, seqLen: nat,
                                     policy: seq<nat>, values: seq<real>, i: nat, j: nat)
    requires i < |states| && j < |states[i]|
  {
    var idx := DataIndex(i, j, seqLen);
    idx < |policy| && idx < |values| && (policy[idx], values[idx]) == AdiTarget(cube, value, states[i][j])
  }

  /** Every (game, step) pair before (i, j) in the order of the two loops has
      its targets in place. */
  ghost predicate FilledBefore<S(!new)>(cube: Puzzle.Cube<S>, value: S -> real, states: seq<seq<S>>, seqLen: nat,
                                        policy: seq<nat>, values: seq<real>, i: nat, j: nat)
    requires forall g :: 0 <= g < |states| ==> |states[g]| == seqLen
  {
    forall g, k :: 0 <= g < |states| && 0 <= k < seqLen && (g < i || (g == i && k < j)) ==>
      TargetsAt(cube, value, states, seqLen, policy, values, g, k)
  }

  /** One pass of the inner loop body: writing the targets of states[i][j] at
      its position keeps every earlier pair in place. */
  lemma FillStep<S(!new)>(cube: Puzzle.Cube<S>, value: S -> real, states: seq<seq<S>>, seqLen: nat,
                          policy: seq<nat>, values: seq<real>, i: nat, j: nat, policy': seq<nat>, values': seq<real>)
    requires forall g :: 0 <= g < |states| ==> |states[g]| == seqLen
    requires i < |states| && j < seqLen && |policy| == |values| == |states| * seqLen
    requires FilledBefore(cube, value, states, seqLen, policy, values, i, j)
    requires DataIndex(i, j, seqLen) < |policy|
    requires policy' == policy[DataIndex(i, j, seqLen) := AdiTarget(cube, value, states[i][j]).0]
    requires values' == values[DataIndex(i, j, seqLen) := AdiTarget(cube, value, states[i][j]).1]
    ensures FilledBefore(cube, value, states, seqLen, policy', values', i, j + 1)
  {
    forall g, k | 0 <= g < |states| && 0 <= k < seqLen && (g < i || (g == i && k < j + 1))
      ensures TargetsAt(cube, value, states, seqLen, policy', values', g, k)
    {
      var idx := DataIndex(g, k, seqLen);
      DataIndexDistinct(g, k, i, j, |states|, seqLen);
      if g != i || k != j {
        assert TargetsAt(cube, value, states, seqLen, policy, values, g, k);
        assert policy'[idx] == policy[idx] && values'[idx] == values[idx];
      }
    }
  }

  /** ADI_traindata: for every game i and step j, the targets of scrambled
      state states[i][j] land at position i * seqLen + j of the two arrays.
      The network is the function value from a state to its value output; the
      scrambled games are given as states. */
  method AdiTrainData<S(!new)>(cube: Puzzle.Cube<S>, value: S -> real, games: nat, seqLen: nat, states: seq<seq<S>>)
    returns (policyTargets: array<nat>, valueTargets: array<real>)
    requires |states| == games && forall i :: 0 <= i < games ==> |states[i]| == seqLen
    ensures fresh(policyTargets) && fresh(valueTargets)
    ensures policyTargets.Length == valueTargets.Length == games * seqLen
    ensures forall i, j :: 0 <= i < games && 0 <= j < seqLen ==>
              TargetsAt(cube, value, states, seqLen, policyTargets[..], valueTargets[..], i, j)
  {
    policyTargets := new nat[games * seqLen];
    valueTargets := new real[games * seqLen];
    for i := 0 to games
      invariant FilledBefore(cube, value, states, seqLen, policyTargets[..], valueTargets[..], i, 0)
    {
      for j := 0 to seqLen
        invariant FilledBefore(cube, value, states, seqLen, policyTargets[..], valueTargets[..], i, j)
      {
        var idx := DataIndex(i, j, seqLen);
        DataIndexDistinct(i, j, i, j, games, seqLen);
        var target := AdiTarget(cube, value, states[i][j]);
        ghost var policy, values := policyTargets[..], valueTargets[..];
        policyTargets[idx] := target.0;
        valueTargets[idx] := target.1;
        FillStep(cube, value, states, seqLen, policy, values, i, j, policyTargets[..], valueTargets[..]);
      }
      assert FilledBefore(cube, value, states, seqLen, policyTargets[..], valueTargets[..], i + 1, 0);
    }
  }

  /** The network's values for the substates of states, ActionDim per state
      and in order, as ADI_traindata of librubiks/train.py feeds them. */
  function FlatValues<S(!new)>(cube: Puzzle.Cube<S>, value: S -> real, states: seq<S>): seq<real> {
    seq(LibTrain.ActionDim * |states|, x requires 0 <= x < LibTrain.ActionDim * |states| =>
      value(cube.rotate(states[x / LibTrain.ActionDim], x % LibTrain.ActionDim)))
  }

  /** Which of those substates are solved. */
  function FlatSolved<S(!new)>(cube: Puzzle.Cube<S>, states: seq<S>): seq<bool> {
    seq(LibTrain.ActionDim * |states|, x requires 0 <= x < LibTrain.ActionDim * |states| =>
      cube.isSolved(cube.rotate(states[x / LibTrain.ActionDim], x % LibTrain.ActionDim)))
  }

  /** Which scrambled states are solved. */
  function ScrambledSolved<S(!new)>(cube: Puzzle.Cube<S>, states: seq<S>): seq<bool> {
    seq(|states|, i requires 0 <= i < |states| => cube.isSolved(states[i]))
  }

  /** The target rule of this trainer is the lapanfix rule of
      librubiks/train.py: fed the same network, librubiks' AdiTargets under
      lapanfix gives, state by state, exactly the targets of AdiTarget. */
  lemma AdiTargetIsLapanFix<S(!new)>(cube: Puzzle.Cube<S>, value: S -> real, states: seq<S>, depth: nat)
    ensures LibTrain.AdiTargets(FlatValues(cube, value, states), FlatSolved(cube, states),
                                ScrambledSolved(cube, states), LibTrain.LapanFix, depth)
            == Success((seq(|states|, i requires 0 <= i < |states| => AdiTarget(cube, value, states[i]).0),
                        seq(|states|, i requires 0 <= i < |states| => AdiTarget(cube, value, states[i]).1)))
  {
    var n := |states|;
    var r := LibTrain.AdiTargets(FlatValues(cube, value, states), FlatSolved(cube, states),
                                 ScrambledSolved(cube, states), LibTrain.LapanFix, depth);
    var (policy, vt) := r.value;
    LapanFixRows(cube, value, states, depth, policy, vt);
    assert policy == seq(n, i requires 0 <= i < n => AdiTarget(cube, value, states[i]).0);
    assert vt == seq(n, i requires 0 <= i < n => AdiTarget(cube, value, states[i]).1);
  }

  lemma LapanFixRows<S(!new)>(cube: Puzzle.Cube<S>, value: S -> real, states: seq<S>, depth: nat,
                              policy: seq<nat>, vt: seq<real>)
    requires LibTrain.AdiTargets(FlatValues(cube, value, states), FlatSolved(cube, states),
                                 ScrambledSolved(cube, states), LibTrain.LapanFix, depth) == Success((policy, vt))
    ensures |policy| == |vt| == |states|
    ensures forall i :: 0 <= i < |states| ==> (policy[i], vt[i]) == AdiTarget(cube, value, states[i])
  {
    forall i | 0 <= i < |states|
      ensures (policy[i], vt[i]) == AdiTarget(cube, value, states[i])
    {
      LapanFixRow(cube, value, states, depth, i, policy[i], vt[i]);
    }
  }

  /** Row i of the flat values, rewards added, is SubstateValues of states[i]. */
  lemma FlatRow<S(!new)>(cube: Puzzle.Cube<S>, value: S -> real, states: seq<S>, i: nat, k: nat)
    requires i < |states| && k < LibTrain.ActionDim
    ensures LibTrain.ActionDim * i + k < LibTrain.ActionDim * |states|
    ensures FlatValues(cube, value, states)[LibTrain.ActionDim * i + k]
              + LibTrain.Reward(LibTrain.LapanFix, FlatSolved(cube, states)[LibTrain.ActionDim * i + k])
            == SubstateValues(cube, value, states[i])[k]
  {
    FlatIndex(i, k, |states|, LibTrain.ActionDim);
    assert LibTrain.ActionDim * i == i * LibTrain.ActionDim;
  }

  lemma LapanFixRow<S(!new)>(cube: Puzzle.Cube<S>, value: S -> real, states: seq<S>, depth: nat, i: nat, p: nat, v: real)
    requires i < |states| && p < LibTrain.ActionDim
    requires var values := FlatValues(cube, value, states);
             var sub := FlatSolved(cube, states);
             var best := LibTrain.ActionDim * i + p;
             && (forall k :: LibTrain.ActionDim * i <= k < LibTrain.ActionDim * i + LibTrain.ActionDim ==>
                   values[k] + LibTrain.Reward(LibTrain.LapanFix, sub[k]) <= values[best] + LibTrain.Reward(LibTrain.LapanFix, sub[best]))
             && (forall k :: LibTrain.ActionDim * i <= k < best ==>
                   values[k] + LibTrain.Reward(LibTrain.LapanFix, sub[k]) < values[best] + LibTrain.Reward(LibTrain.LapanFix, sub[best]))
             && v == if LibTrain.Zeroed(LibTrain.LapanFix, ScrambledSolved(cube, states), depth, i) then 0.0
                     else values[best] + LibTrain.Reward(LibTrain.LapanFix, sub[best])
    ensures (p, v) == AdiTarget(cube, value, states[i])
  {
    var w := SubstateValues(cube, value, states[i]);
    var d := LibTrain.ActionDim;
    FlatRow(cube, value, states, i, p);
    forall k | 0 <= k < d
      ensures w[k] <= w[p] && (k < p ==> w[k] < w[p])
    {
      FlatRow(cube, value, states, i, k);
    }
    FirstMaxUnique(w, p, AdiTarget(cube, value, states[i]).0);
  }

  /** A first maximal index is unique. */
  lemma FirstMaxUnique(s: seq<real>, p: nat, q: nat)
    requires p < |s| && q < |s|
    requires forall k :: 0 <= k < |s| ==> s[k] <= s[p] && s[k] <= s[q]
    requires forall k :: 0 <= k < p ==> s[k] < s[p]
    requires forall k :: 0 <= k < q ==> s[k] < s[q]
    ensures p == q
  {
    assert s[p] <= s[q] && s[q] <= s[p];
  }

  // ---------------------------------------------------------------------------
  // Evaluation (train)
  // ---------------------------------------------------------------------------

  /** The test in train: evaluate after rollout r when the interval is
      nonzero and r + 1 is a multiple of it. The first evaluation comes no
      earlier than rollout interval - 1. */
  predicate ShouldEvaluate(rollout: nat, interval: nat): (b: bool)
    ensures b ==> 0 < interval <= rollout + 1
  {
    interval != 0 && (rollout + 1) % interval == 0
  }

  /** This trainer and librubiks/train.py evaluate after the same rollouts,
      except that librubiks also evaluates after rollout 0 and after the last
      rollout (and cannot lay out a schedule where this one simply never
      evaluates, for an empty run or a single rollout at interval 1). */
  lemma EvaluationAgreement(rollouts: nat, interval: nat, r: nat)
    requires r < rollouts
    ensures interval == 0 ==> !ShouldEvaluate(r, interval) && LibTrain.Schedule(rollouts, interval) == Success([])
    ensures interval > 0 ==> (LibTrain.Schedule(rollouts, interval).Success? <==> !(interval == 1 && rollouts == 1))
    ensures LibTrain.Schedule(rollouts, interval).Success? ==>
              (r in LibTrain.Schedule(rollouts, interval).value <==>
                 ShouldEvaluate(r, interval) || (interval != 0 && (r == 0 || r == rollouts - 1)))
  {
    LibTrain.ScheduleShape(rollouts, interval);
    if interval == 0 {
      assert !ShouldEvaluate(r, interval);
    } else if LibTrain.Schedule(rollouts, interval).Success? {
      LibTrain.ScheduleMembers(rollouts, interval, r);
    }
  }
}
