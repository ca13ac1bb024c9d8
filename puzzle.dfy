/** The cube's transition model, which the search code uses but does not define:
    Cube.rotate, Cube.is_solved, Cube.rev_action and Cube.action_dim. Actions are
    the indices 0 .. actionDim - 1 into Cube.action_space. */
module Puzzle {

  datatype Cube<!S(!new)> = Cube(rotate: (S, nat) -> S, isSolved: S -> bool, revAction: nat -> nat, actionDim: nat)
  {
    /** What the search graph relies on: at least one action, rev_action is an
        involution on the actions and undoes rotate, and distinct actions lead
        from one state to distinct states (as they do on a Rubik's cube). */
    ghost predicate Valid() {
      && actionDim > 0
      && (forall a :: 0 <= a < actionDim ==> revAction(a) < actionDim && revAction(revAction(a)) == a)
      && (forall s, a {:trigger rotate(rotate(s, a), revAction(a))} ::
            0 <= a < actionDim ==> rotate(rotate(s, a), revAction(a)) == s)
      && (forall s, a, b :: 0 <= a < actionDim && 0 <= b < actionDim && rotate(s, a) == rotate(s, b) ==> a == b)
    }

    /** Every entry of the sequence is an action index. */
    predicate ValidActions(actions: seq<nat>) {
      forall k :: 0 <= k < |actions| ==> actions[k] < actionDim
    }

    /** The state reached from s by rotating with each action in turn. */
    function Replay(s: S, actions: seq<nat>): S
      decreases |actions|
    {
      if actions == [] then s else Replay(rotate(s, actions[0]), actions[1..])
    }

    /** Appending one action to a queue rotates the state the queue reaches. */
    lemma {:induction false} ReplaySnoc(s: S, actions: seq<nat>, a: nat)
      ensures Replay(s, actions + [a]) == rotate(Replay(s, actions), a)
      decreases |actions|
    {
      if actions == [] {
        assert actions + [a] == [a];
        assert [a][1..] == [];
      } else {
        assert (actions + [a])[1..] == actions[1..] + [a];
        ReplaySnoc(rotate(s, actions[0]), actions[1..], a);
      }
    }

    /** Replaying a concatenation replays the first queue, then the second. */
    lemma {:induction false} ReplayAppend(s: S, xs: seq<nat>, ys: seq<nat>)
      ensures Replay(s, xs + ys) == Replay(Replay(s, xs), ys)
      decreases |xs|
    {
      if xs == [] {
        assert xs + ys == ys;
      } else {
        assert (xs + ys)[1..] == xs[1..] + ys;
        ReplayAppend(rotate(s, xs[0]), xs[1..], ys);
      }
    }

    lemma Undo(s: S, a: nat)
      requires Valid() && a < actionDim
      ensures rotate(rotate(s, a), revAction(a)) == s
    {
    }
  }
}
