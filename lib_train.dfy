/** The integer side of librubiks/train.py: the evaluation schedule that
    Train.__init__ lays out, the batch slices of _get_batches, the feed-forward
    slices of _get_adi_ff_slices with the retry loop that doubles their number,
    and the reward, argmax and masking steps that turn network values into the
    ADI policy and value targets. */
module LibTrain {
  import opened Wrappers
  import opened Numerics

  /** cube.action_dim: the number of substates of every scrambled state. */
  const ActionDim: nat := 12

  /** A Python slice(start, stop) with step 1. */
  datatype Slice = Slice(start: int, stop: int)

  predicate Holds(s: Slice, x: int) {
    s.start <= x < s.stop
  }

  /** Non-empty slices laid end to end, the first starting at lo and the last
      stopping at hi. */
  predicate Tiles(v: seq<Slice>, lo: int, hi: int) {
    && |v| > 0
    && v[0].start == lo
    && v[|v| - 1].stop == hi
    && (forall i :: 0 <= i < |v| ==> v[i].start < v[i].stop)
    && (forall i :: 0 <= i < |v| - 1 ==> v[i].stop == v[i + 1].start)
  }

  /** count slices of the given width laid end to end from 0. */
  function Consecutive(count: nat, width: nat): seq<Slice> {
    seq(count, i => Slice(i * width, (i + 1) * width))
  }

  lemma ConsecutiveTiles(count: nat, width: nat)
    requires count > 0 && width > 0
    ensures Tiles(Consecutive(count, width), 0, count * width)
    ensures forall i :: 0 <= i < count ==> Consecutive(count, width)[i].stop - Consecutive(count, width)[i].start == width
  {
    var v := Consecutive(count, width);
    forall i | 0 <= i < count
      ensures v[i].stop - v[i].start == width
    {
      assert (i + 1) * width == i * width + width;
    }
  }

  lemma {:induction false} TilesOrdered(v: seq<Slice>, lo: int, hi: int, i: int, j: int)
    requires Tiles(v, lo, hi) && 0 <= i < j < |v|
    ensures v[i].stop <= v[j].start
    decreases j - i
  {
    if i + 1 < j {
      TilesOrdered(v, lo, hi, i + 1, j);
    }
  }

  lemma {:induction false} TilesFind(v: seq<Slice>, lo: int, hi: int, x: int, k: int)
    requires Tiles(v, lo, hi) && 0 <= k < |v| && v[k].start <= x < hi
    ensures exists i :: 0 <= i < |v| && Holds(v[i], x)
    decreases |v| - k
  {
    if x >= v[k].stop {
      TilesFind(v, lo, hi, x, k + 1);
    }
  }

  /** Tiles of [lo, hi) partition it: every point of [lo, hi), and no other,
      lies in some slice, and in only one. */
  lemma TilesPartition(v: seq<Slice>, lo: int, hi: int, x: int)
    requires Tiles(v, lo, hi)
    ensures lo <= x < hi <==> exists i :: 0 <= i < |v| && Holds(v[i], x)
    ensures forall i, j :: 0 <= i < |v| && 0 <= j < |v| && Holds(v[i], x) && Holds(v[j], x) ==> i == j
  {
    if lo <= x < hi {
      TilesFind(v, lo, hi, x, 0);
    }
    if i :| 0 <= i < |v| && Holds(v[i], x) {
      if i > 0 {
        TilesOrdered(v, lo, hi, 0, i);
      }
      if i < |v| - 1 {
        TilesOrdered(v, lo, hi, i, |v| - 1);
      }
    }
    forall i, j | 0 <= i < |v| && 0 <= j < |v| && Holds(v[i], x) && Holds(v[j], x)
      ensures i == j
    {
      if i < j {
        TilesOrdered(v, lo, hi, i, j);
      } else if j < i {
        TilesOrdered(v, lo, hi, j, i);
      }
    }
  }

  // ---------------------------------------------------------------------------
  // The evaluation schedule (Train.__init__)
  // ---------------------------------------------------------------------------

  /** The rollouts after which training evaluates, or the IndexError raised
      while building them: none for interval 0; every rollout for interval 1;
      otherwise rollout 0, every rollout one short of a multiple of the
      interval, and the last rollout. */
  function Schedule(rollouts: nat, interval: nat): (r: Result<seq<int>, Error>)
    ensures r == Success([]) <==> interval == 0
  {
    if interval == 0 then Success([])
    else if rollouts == 0 || (interval == 1 && rollouts == 1) then Failure(IndexOutOfRange)
    else if interval == 1 then Success(seq(rollouts, i => i))
    else
      var m := CeilDiv(rollouts, interval);
      Success([0] + seq(m - 1, i => (i + 1) * interval - 1) + (if rollouts == 1 then [] else [rollouts - 1]))
  }

  /** Train.__init__'s evaluation_rollouts: arange(0, rollouts, interval) - 1,
      then drop the first entry (interval 1) or set it to 0, then append
      rollouts - 1 unless it is already last. */
  method EvaluationRollouts(rollouts: nat, interval: nat) returns (r: Result<seq<int>, Error>)
    ensures r == Schedule(rollouts, interval)
  {
    if interval == 0 {
      return Success([]);
    }
    var steps := StepRange(rollouts, interval);
    var ev: seq<int> := seq(|steps|, i requires 0 <= i < |steps| => steps[i] as int - 1);
    if interval == 1 {
      ev := if ev == [] then [] else ev[1..];
    } else {
      if ev == [] {
        return Failure(IndexOutOfRange);
      }
      ev := ev[0 := 0];
    }
    if ev == [] {
      return Failure(IndexOutOfRange);
    }
    if rollouts - 1 != ev[|ev| - 1] {
      ev := ev + [rollouts - 1];
    }
    ghost var m := CeilDiv(rollouts, interval);
    if interval == 1 {
      assert ev == seq(rollouts, i => i);
      assert Schedule(rollouts, interval) == Success(ev);
    } else if m == 1 {
      assert seq(m - 1, i => (i + 1) * interval - 1) == [];
      assert ev == [0] + [] + (if rollouts == 1 then [] else [rollouts - 1]);
      assert Schedule(rollouts, interval) == Success(ev);
    } else {
      assert (m - 1) * interval < rollouts;
      assert ev == [0] + seq(m - 1, i => (i + 1) * interval - 1) + [rollouts - 1];
      assert Schedule(rollouts, interval) == Success(ev);
    }
    return Success(ev);
  }

  /** The schedule for an interval k above 1, entry by entry: rollout 0, then
      k * i - 1 for 0 < i < ceil(rollouts / k), then the last rollout unless it
      is rollout 0. */
  lemma ScheduleEntries(rollouts: nat, interval: nat)
    requires interval > 1 && rollouts > 0
    ensures var v := Schedule(rollouts, interval).value;
            var m := CeilDiv(rollouts, interval);
            && m > 0 && (m - 1) * interval < rollouts
            && |v| == (if rollouts == 1 then m else m + 1)
            && v[0] == 0
            && (forall i :: 0 < i < m ==> v[i] == i * interval - 1)
            && (rollouts > 1 ==> v[m] == rollouts - 1)
  {
  }

  /** A sequence whose neighbours increase is strictly increasing. */
  lemma {:induction false} AdjacentIncreasing(v: seq<int>, i: int, j: int)
    requires forall k :: 0 <= k < |v| - 1 ==> v[k] < v[k + 1]
    requires 0 <= i < j < |v|
    ensures v[i] < v[j]
    decreases j - i
  {
    if i + 1 < j {
      AdjacentIncreasing(v, i + 1, j);
    }
  }

  /** For an interval above 1 the entries between the ends lie strictly
      between the ends, and neighbours increase. */
  lemma ScheduleSteps(rollouts: nat, interval: nat)
    requires interval > 1 && rollouts > 0
    ensures var v := Schedule(rollouts, interval).value;
            && (forall i :: 0 < i < |v| - 1 ==> 0 < v[i] < rollouts - 1)
            && (forall k :: 0 <= k < |v| - 1 ==> v[k] < v[k + 1])
  {
    var v := Schedule(rollouts, interval).value;
    var m := CeilDiv(rollouts, interval);
    ScheduleEntries(rollouts, interval);
    forall i | 0 < i < m
      ensures 0 < v[i] < rollouts - 1
    {
      MulMono(1, i, interval);
      MulMono(i, m - 1, interval);
    }
    forall k | 0 <= k < |v| - 1
      ensures v[k] < v[k + 1]
    {
      if 0 < k && k + 1 < m {
        assert v[k + 1] == k * interval + interval - 1;
      }
    }
  }

  /** The schedule fails only on an empty training run or, for interval 1, a
      single rollout; otherwise it starts at rollout 0, stops at the last
      rollout, strictly increases and stays within the rollouts. For an
      interval k above 1 its i-th entry between the two ends is k * i - 1. */
  lemma ScheduleShape(rollouts: nat, interval: nat)
    ensures Schedule(rollouts, interval).Failure? <==> interval > 0 && (rollouts == 0 || (interval == 1 && rollouts == 1))
    ensures interval > 0 && Schedule(rollouts, interval).Success? ==>
              var v := Schedule(rollouts, interval).value;
              && |v| > 0 && v[0] == 0 && v[|v| - 1] == rollouts - 1
              && (forall i, j :: 0 <= i < j < |v| ==> v[i] < v[j])
              && (forall i :: 0 <= i < |v| ==> 0 <= v[i] < rollouts)
              && (interval > 1 ==> forall i :: 0 < i < |v| - 1 ==> v[i] == interval * i - 1)
  {
    if interval > 0 && Schedule(rollouts, interval).Success? {
      ScheduleIncreasing(rollouts, interval);
    }
  }

  /** A built schedule is strictly increasing, within range, from 0 to the
      last rollout, with its inner entries one short of multiples of the
      interval. */
  lemma ScheduleIncreasing(rollouts: nat, interval: nat)
    requires interval > 0 && Schedule(rollouts, interval).Success?
    ensures var v := Schedule(rollouts, interval).value;
      && |v| > 0 && v[0] == 0 && v[|v| - 1] == rollouts - 1
      && (forall i, j :: 0 <= i < j < |v| ==> v[i] < v[j])
      && (forall i :: 0 <= i < |v| ==> 0 <= v[i] < rollouts)
      && (interval > 1 ==> forall i :: 0 < i < |v| - 1 ==> v[i] == interval * i - 1)
  {
    var v := Schedule(rollouts, interval).value;
    if interval > 1 {
      ScheduleSteps(rollouts, interval);
    }
    forall i, j | 0 <= i < j < |v|
      ensures v[i] < v[j]
    {
      AdjacentIncreasing(v, i, j);
    }
  }

  /** The rollouts on the schedule are exactly rollout 0, the last rollout, and
      the rollouts r with (r + 1) divisible by the interval. */
  lemma ScheduleMembers(rollouts: nat, interval: nat, r: int)
    requires interval > 0 && Schedule(rollouts, interval).Success?
    ensures r in Schedule(rollouts, interval).value <==>
              0 <= r < rollouts && (r == 0 || r == rollouts - 1 || (r + 1) % interval == 0)
  {
    var v := Schedule(rollouts, interval).value;
    ScheduleShape(rollouts, interval);
    if interval == 1 {
      assert (r + 1) % 1 == 0;
      if 0 <= r < rollouts {
        assert v[r] == r;
      }
    } else {
      if r in v {
        var i :| 0 <= i < |v| && v[i] == r;
        if 0 < i < |v| - 1 {
          ScheduleMiddleOnly(rollouts, interval, i);
        }
      }
      if 0 < r < rollouts - 1 && (r + 1) % interval == 0 {
        ScheduleMiddleIn(rollouts, interval, r);
      }
    }
  }

  lemma ScheduleMiddleOnly(rollouts: nat, interval: nat, i: int)
    requires interval > 1 && rollouts > 0
    requires 0 < i < |Schedule(rollouts, interval).value| - 1
    ensures var r := Schedule(rollouts, interval).value[i];
            0 < r < rollouts - 1 && (r + 1) % interval == 0
  {
    ScheduleEntries(rollouts, interval);
    var m := CeilDiv(rollouts, interval);
    MulMono(1, i, interval);
    MulMono(i, m - 1, interval);
    MultipleMod(i, interval);
  }

  lemma ScheduleMiddleIn(rollouts: nat, interval: nat, r: int)
    requires interval > 1 && rollouts > 0
    requires 0 < r < rollouts - 1 && (r + 1) % interval == 0
    ensures r in Schedule(rollouts, interval).value
  {
    ScheduleEntries(rollouts, interval);
    var m := CeilDiv(rollouts, interval);
    var i := (r + 1) / interval;
    DivModUnique(r + 1, interval, i, 0);
    assert i * interval == r + 1;
    if i >= m {
      MulMono(m, i, interval);
    }
    assert 0 < i < m;
    assert Schedule(rollouts, interval).value[i] == r;
  }

  // ---------------------------------------------------------------------------
  // Batch slices (_get_batches)
  // ---------------------------------------------------------------------------

  /** _get_batches: ceil(size / bsize) slices of width bsize, the last cut off
      at size. A zero bsize fails on the division and a zero size on
      batches[-1] of the empty list. The shuffled index array it draws is never
      used and is not modelled. */
  method GetBatches(size: nat, bsize: nat) returns (r: Result<seq<Slice>, Error>)
    ensures bsize == 0 ==> r == Failure(DivisionByZero)
    ensures bsize > 0 && size == 0 ==> r == Failure(IndexOutOfRange)
    ensures bsize > 0 && size > 0 ==> r.Success?
    ensures r.Success? ==>
              var v := r.value;
              && |v| == CeilDiv(size, bsize)
              && Tiles(v, 0, size)
              && (forall i :: 0 <= i < |v| ==> v[i].start == i * bsize)
              && (forall i :: 0 <= i < |v| - 1 ==> v[i].stop - v[i].start == bsize)
              && 0 < v[|v| - 1].stop - v[|v| - 1].start <= bsize
  {
    if bsize == 0 {
      return Failure(DivisionByZero);
    }
    var nbatches := CeilDiv(size, bsize);
    var batches := Consecutive(nbatches, bsize);
    if batches == [] {
      return Failure(IndexOutOfRange);
    }
    var last := |batches| - 1;
    batches := batches[last := Slice(batches[last].start, size)];
    BatchesTile(size, bsize, batches);
    return Success(batches);
  }

  lemma BatchesTile(size: nat, bsize: nat, v: seq<Slice>)
    requires bsize > 0 && size > 0
    requires |v| == CeilDiv(size, bsize)
    requires forall i :: 0 <= i < |v| - 1 ==> v[i] == Slice(i * bsize, (i + 1) * bsize)
    requires |v| > 0 && v[|v| - 1] == Slice((|v| - 1) * bsize, size)
    ensures Tiles(v, 0, size)
    ensures 0 < v[|v| - 1].stop - v[|v| - 1].start <= bsize
  {
    var last := |v| - 1;
    assert last * bsize < size <= (last + 1) * bsize;
    assert v[0].start == 0;
    forall i | 0 <= i < last
      ensures v[i].stop == v[i + 1].start
    {
    }
  }

  // ---------------------------------------------------------------------------
  // Rewards, targets and masks (ADI_traindata)
  // ---------------------------------------------------------------------------

  /** Train.reward_method: 'reward0', 'lapanfix', 'schultzfix', or any other
      string, which takes neither fix. */
  datatype RewardMethod = Reward0 | LapanFix | SchultzFix | Plain

  /** The reward of a substate: 1 when it is solved (0 under reward0), -1
      otherwise. */
  function Reward(m: RewardMethod, solved: bool): (r: real)
    ensures solved && m != Reward0 ==> r == 1.0
    ensures solved && m == Reward0 ==> r == 0.0
    ensures !solved ==> r == -1.0
  {
    if !solved then -1.0 else if m == Reward0 then 0.0 else 1.0
  }

  /** values += rewards. */
  function Rewarded(values: seq<real>, solvedSub: seq<bool>, m: RewardMethod): (w: seq<real>)
    requires |values| == |solvedSub|
  {
    seq(|values|, i requires 0 <= i < |values| => values[i] + Reward(m, solvedSub[i]))
  }

  /** Row i of the values reshaped to rows of ActionDim. */
  function Row(w: seq<real>, i: nat): seq<real>
    requires ActionDim * i + ActionDim <= |w|
  {
    w[ActionDim * i .. ActionDim * i + ActionDim]
  }

  /** Whether the fix of m sets value target i to 0. */
  predicate Zeroed(m: RewardMethod, solvedScr: seq<bool>, depth: nat, i: nat)
    requires i < |solvedScr|
  {
    || (m == LapanFix && solvedScr[i])
    || (m == SchultzFix && depth > 0 && i % depth == 0)
  }

  /** The value-target fix: lapanfix zeroes the targets of solved scrambled
      states; schultzfix zeroes the targets at arange(0, len(states), depth),
      which fails for a zero depth. */
  function Mask(vt: seq<real>, m: RewardMethod, solvedScr: seq<bool>, depth: nat): (r: Result<seq<real>, Error>)
    requires |vt| == |solvedScr|
    ensures r.Failure? <==> m == SchultzFix && depth == 0
    ensures r.Success? ==> |r.value| == |vt| && forall i :: 0 <= i < |vt| ==> r.value[i] == vt[i] || r.value[i] == 0.0
    ensures r.Success? ==> forall i :: 0 <= i < |vt| ==> r.value[i] == if Zeroed(m, solvedScr, depth, i) then 0.0 else vt[i]
  {
    match m
    case LapanFix => Success(seq(|vt|, i requires 0 <= i < |vt| => if solvedScr[i] then 0.0 else vt[i]))
    case SchultzFix =>
      if depth == 0 then Failure(DivisionByZero)
      else
        var first := StepRange(|vt|, depth);
        assert forall i :: 0 <= i < |vt| ==> (i in first <==> i % depth == 0) by {
          forall i | 0 <= i < |vt| ensures i in first <==> i % depth == 0 {
            StepRangeMembers(|vt|, depth, i);
          }
        }
        Success(seq(|vt|, i requires 0 <= i < |vt| => if i in first then 0.0 else vt[i]))
    case _ => Success(vt)
  }

  /** The targets ADI_traindata computes from the network's values for all
      substates (ActionDim per scrambled state, in order): per scrambled state
      the policy target is the first action whose reward-adjusted value is
      maximal, and the value target is that value, or 0 where the reward
      method's fix applies. Only schultzfix with a zero depth fails. */
  function AdiTargets(values: seq<real>, solvedSub: seq<bool>, solvedScr: seq<bool>, m: RewardMethod, depth: nat)
    : (r: Result<(seq<nat>, seq<real>), Error>)
    requires |values| == |solvedSub| == ActionDim * |solvedScr|
    ensures r.Failure? <==> m == SchultzFix && depth == 0
    ensures r.Success? ==>
              var (policy, value) := r.value;
              && |policy| == |value| == |solvedScr|
              && forall i :: 0 <= i < |solvedScr| ==>
                   var best := ActionDim * i + policy[i];
                   && policy[i] < ActionDim
                   && (forall k :: ActionDim * i <= k < ActionDim * i + ActionDim ==>
                         values[k] + Reward(m, solvedSub[k]) <= values[best] + Reward(m, solvedSub[best]))
                   && (forall k :: ActionDim * i <= k < best ==>
                         values[k] + Reward(m, solvedSub[k]) < values[best] + Reward(m, solvedSub[best]))
                   && value[i] == if Zeroed(m, solvedScr, depth, i) then 0.0 else values[best] + Reward(m, solvedSub[best])
  {
    var w := Rewarded(values, solvedSub, m);
    var n := |solvedScr|;
    var policy := seq(n, i requires 0 <= i < n => ArgMax(Row(w, i)));
    var vt := seq(n, i requires 0 <= i < n => Row(w, i)[policy[i]]);
    var masked := Mask(vt, m, solvedScr, depth);
    if masked.Failure? then Failure(masked.error)
    else
      AdiTargetsSpec(values, solvedSub, solvedScr, m, depth, w, policy, vt, masked.value);
      Success((policy, masked.value))
  }

  lemma AdiTargetsSpec(values: seq<real>, solvedSub: seq<bool>, solvedScr: seq<bool>, m: RewardMethod, depth: nat,
                       w: seq<real>, policy: seq<nat>, vt: seq<real>, masked: seq<real>)
    requires |values| == |solvedSub| == ActionDim * |solvedScr|
    requires w == Rewarded(values, solvedSub, m)
    requires policy == seq(|solvedScr|, i requires 0 <= i < |solvedScr| => ArgMax(Row(w, i)))
    requires vt == seq(|solvedScr|, i requires 0 <= i < |solvedScr| => Row(w, i)[policy[i]])
    requires Mask(vt, m, solvedScr, depth) == Success(masked)
    ensures |policy| == |masked| == |solvedScr|
    ensures forall i :: 0 <= i < |solvedScr| ==>
              var best := ActionDim * i + policy[i];
              && policy[i] < ActionDim
              && (forall k :: ActionDim * i <= k < ActionDim * i + ActionDim ==>
                    values[k] + Reward(m, solvedSub[k]) <= values[best] + Reward(m, solvedSub[best]))
              && (forall k :: ActionDim * i <= k < best ==>
                    values[k] + Reward(m, solvedSub[k]) < values[best] + Reward(m, solvedSub[best]))
              && masked[i] == if Zeroed(m, solvedScr, depth, i) then 0.0 else values[best] + Reward(m, solvedSub[best])
  {
    forall i | 0 <= i < |solvedScr|
      ensures var best := ActionDim * i + policy[i];
              && policy[i] < ActionDim
              && (forall k :: ActionDim * i <= k < ActionDim * i + ActionDim ==>
                    values[k] + Reward(m, solvedSub[k]) <= values[best] + Reward(m, solvedSub[best]))
              && (forall k :: ActionDim * i <= k < best ==>
                    values[k] + Reward(m, solvedSub[k]) < values[best] + Reward(m, solvedSub[best]))
              && masked[i] == if Zeroed(m, solvedScr, depth, i) then 0.0 else values[best] + Reward(m, solvedSub[best])
    {
      RowArgMax(values, solvedSub, m, w, i);
      if m == SchultzFix {
        StepRangeMembers(|vt|, depth, i);
      }
    }
  }

  /** The first maximal entry of row i, as an index into the flat values. */
  lemma RowArgMax(values: seq<real>, solvedSub: seq<bool>, m: RewardMethod, w: seq<real>, i: nat)
    requires |values| == |solvedSub| && w == Rewarded(values, solvedSub, m)
    requires ActionDim * i + ActionDim <= |w|
    ensures var best := ActionDim * i + ArgMax(Row(w, i));
            && ArgMax(Row(w, i)) < ActionDim
            && Row(w, i)[ArgMax(Row(w, i))] == values[best] + Reward(m, solvedSub[best])
            && (forall k :: ActionDim * i <= k < ActionDim * i + ActionDim ==>
                  values[k] + Reward(m, solvedSub[k]) <= values[best] + Reward(m, solvedSub[best]))
            && (forall k :: ActionDim * i <= k < best ==>
                  values[k] + Reward(m, solvedSub[k]) < values[best] + Reward(m, solvedSub[best]))
  {
    var row := Row(w, i);
    var p := ArgMax(row);
    var best := ActionDim * i + p;
    assert row[p] == w[best];
    forall k | ActionDim * i <= k < ActionDim * i + ActionDim
      ensures values[k] + Reward(m, solvedSub[k]) <= values[best] + Reward(m, solvedSub[best])
      ensures k < best ==> values[k] + Reward(m, solvedSub[k]) < values[best] + Reward(m, solvedSub[best])
    {
      assert row[k - ActionDim * i] == w[k];
    }
  }

  lemma DoubleTimes(b: nat, n: nat)
    ensures b * Pow2(n) * 2 == b * Pow2(n + 1)
    ensures b > 0 ==> b * Pow2(n) > 0
  {
    MulMono(1, Pow2(n), b);
  }

  // ---------------------------------------------------------------------------
  // The feed-forward batches (Train.adi_ff_batches, _get_adi_ff_slices)
  // ---------------------------------------------------------------------------

  /** One attempt at the feed-forward over a list of slices: the concatenated
      values, a RuntimeError whose message mentions "alloc", or any other
      error. */
  datatype FfAttempt = Values(values: seq<real>) | AllocError | OtherError

  /** How the feed-forward loop gives up: it re-raises an error other than an
      allocation failure, or (in the model only) it runs out of attempts. */
  datatype FfFailure = Reraised | OutOfAttempts

  /** The part of Train that ADI_traindata's feed-forward keeps between calls:
      the number of feed-forward batches, which only ever doubles. */
  class Train {
    const rolloutGames: nat
    const rolloutDepth: nat
    var adiFfBatches: nat

    ghost predicate Valid()
      reads this
    {
      adiFfBatches > 0
    }

    /** Train.__init__ starts with a single feed-forward batch. */
    constructor (rolloutGames: nat, rolloutDepth: nat)
      ensures Valid()
      ensures this.rolloutGames == rolloutGames && this.rolloutDepth == rolloutDepth && adiFfBatches == 1
    {
      this.rolloutGames := rolloutGames;
      this.rolloutDepth := rolloutDepth;
      adiFfBatches := 1;
    }

    /** The substates ADI_traindata feeds forward. */
    function DataPoints(): nat {
      rolloutGames * rolloutDepth * ActionDim
    }

    /** _get_adi_ff_slices with adi_ff_batches equal to batches: exactly
        batches equal slices of width DataPoints() / batches + 1, laid end to
        end from 0, which together reach past every data point. */
    function FfSlices(batches: nat): (r: seq<Slice>)
      requires batches > 0
      ensures |r| == batches
      ensures forall i :: 0 <= i < |r| ==> r[i].stop - r[i].start == DataPoints() / batches + 1
      ensures Tiles(r, 0, batches * (DataPoints() / batches + 1))
      ensures DataPoints() < batches * (DataPoints() / batches + 1)
    {
      var width := DataPoints() / batches + 1;
      DivBounds(DataPoints(), batches);
      ConsecutiveTiles(batches, width);
      Consecutive(batches, width)
    }

    /** The feed-forward loop of ADI_traindata: try the current slices; on an
        allocation failure double adi_ff_batches and try again; re-raise any
        other error. The source retries without bound; here at most fuel
        attempts fail on allocation before the loop gives up. */
    method AdiFeedForward(forward: seq<Slice> -> FfAttempt, fuel: nat) returns (r: Result<seq<real>, FfFailure>, tries: nat)
      requires Valid()
      modifies this
      ensures Valid()
      ensures tries <= fuel && adiFfBatches == old(adiFfBatches) * Pow2(tries)
      ensures forall j :: 0 <= j < tries ==> forward(FfSlices(old(adiFfBatches) * Pow2(j))) == AllocError
      ensures r.Success? ==> forward(FfSlices(adiFfBatches)) == Values(r.value)
      ensures r == Failure(Reraised) ==> forward(FfSlices(adiFfBatches)) == OtherError
      ensures r == Failure(OutOfAttempts) ==> tries == fuel
    {
      ghost var b0 := adiFfBatches;
      tries := 0;
      while true
        invariant tries <= fuel && adiFfBatches == b0 * Pow2(tries) && adiFfBatches > 0
        invariant forall j :: 0 <= j < tries ==> forward(FfSlices(b0 * Pow2(j))) == AllocError
        decreases fuel - tries
      {
        var attempt := forward(FfSlices(adiFfBatches));
        match attempt
        case Values(values) =>
          return Success(values), tries;
        case OtherError =>
          return Failure(Reraised), tries;
        case AllocError =>
          if tries == fuel {
            return Failure(OutOfAttempts), tries;
          }
          assert forward(FfSlices(b0 * Pow2(tries))) == AllocError;
          DoubleTimes(b0, tries);
          adiFfBatches := adiFfBatches * 2;
          tries := tries + 1;
      }
    }
  }
}
