/** TreeAgent of agents.py: an agent that asks its searcher once for a queue
    of actions and then hands that queue out, one action per call. The
    searcher and its time limit are one function: the queue that
    searcher.search(state, time_limit) leaves in searcher.action_queue. */
module Agents {

  /** What TreeAgent.act gives back: the index into Cube.action_space of the
      next action, False once the queue is used up, or the IndexError that
      popleft raises on an empty deque. */
  datatype Answer = Move(action: nat) | Stop | PopFromEmpty

  /** The state act works on: the searcher's action queue and has_searched. */
  datatype AgentState = AgentState(queue: seq<nat>, hasSearched: bool)

  /** The agent as TreeAgent.__init__ leaves it, over a fresh searcher. */
  const Fresh := AgentState([], false)

  /** TreeAgent.act, where found is the queue the search would leave. The
      ensures follow the branches of act one by one; what a sequence of calls
      does is stated by SearchAtMostOnce, RunHandsOutQueue, RunExhausted and
      RunFresh. */
  function Respond(a: AgentState, found: seq<nat>): (r: (Answer, AgentState))
    ensures r.1.hasSearched == (a.hasSearched || a.queue == [])
    ensures r.0 == Stop <==> a.queue == [] && a.hasSearched
    ensures r.0 == Stop ==> r.1 == a
    ensures a.queue != [] ==> r.0 == Move(a.queue[0]) && r.1.queue == a.queue[1..]
    ensures a.queue == [] && !a.hasSearched ==>
              if found == [] then r.0 == PopFromEmpty && r.1.queue == []
              else r.0 == Move(found[0]) && r.1.queue == found[1..]
  {
    if a.queue == [] && a.hasSearched then (Stop, a)
    else
      var q := if a.queue == [] then found else a.queue;
      if q == [] then (PopFromEmpty, AgentState([], true))
      else (Move(q[0]), AgentState(q[1..], a.hasSearched || a.queue == []))
  }

  /** Whether act on a runs the search. */
  predicate Searches(a: AgentState) {
    a.queue == [] && !a.hasSearched
  }

  /** Successive calls of act on the states of a game, in order. */
  function Run<S>(a: AgentState, search: S -> seq<nat>, states: seq<S>): (r: (seq<Answer>, AgentState))
    ensures |r.0| == |states|
    decreases |states|
  {
    if states == [] then ([], a)
    else
      var (answer, a') := Respond(a, search(states[0]));
      var (rest, last) := Run(a', search, states[1..]);
      ([answer] + rest, last)
  }

  /** How many of those calls run the search. */
  function SearchCount<S>(a: AgentState, search: S -> seq<nat>, states: seq<S>): nat
    decreases |states|
  {
    if states == [] then 0
    else (if Searches(a) then 1 else 0) + SearchCount(Respond(a, search(states[0])).1, search, states[1..])
  }

  /** The search runs at most once per agent, and never again once it has run. */
  lemma {:induction false} SearchAtMostOnce<S>(a: AgentState, search: S -> seq<nat>, states: seq<S>)
    ensures SearchCount(a, search, states) <= (if a.hasSearched then 0 else 1)
    decreases |states|
  {
    if states != [] {
      SearchAtMostOnce(Respond(a, search(states[0])).1, search, states[1..]);
    }
  }

  /** Once the queue is set, act hands it out front first, whatever the states
      are, and leaves the rest. */
  lemma {:induction false} RunHandsOutQueue<S>(q: seq<nat>, searched: bool, search: S -> seq<nat>, states: seq<S>)
    requires |states| <= |q|
    ensures forall i :: 0 <= i < |states| ==> Run(AgentState(q, searched), search, states).0[i] == Move(q[i])
    ensures Run(AgentState(q, searched), search, states).1 == AgentState(q[|states|..], searched)
    decreases |states|
  {
    if states != [] {
      RunHandsOutQueue(q[1..], searched, search, states[1..]);
      assert q[1..][|states| - 1..] == q[|states|..];
    }
  }

  /** After the search has run and its queue is used up, every call answers False. */
  lemma {:induction false} RunExhausted<S>(search: S -> seq<nat>, states: seq<S>)
    ensures Run(AgentState([], true), search, states).0 == seq(|states|, i => Stop)
    decreases |states|
  {
    if states != [] {
      RunExhausted(search, states[1..]);
    }
  }

  /** A fresh agent over a game: the first call searches from the first state;
      the calls then hand out that queue in FIFO order and answer False after
      it, except that an empty queue makes the first call fail on popleft. */
  lemma RunFresh<S>(search: S -> seq<nat>, states: seq<S>, i: nat)
    requires i < |states|
    ensures var found := search(states[0]);
      Run(Fresh, search, states).0[i] ==
        if i < |found| then Move(found[i])
        else if found == [] && i == 0 then PopFromEmpty
        else Stop
  {
    var found := search(states[0]);
    var tail := states[1..];
    var (first, a1) := Respond(Fresh, found);
    var rest := Run(a1, search, tail).0;
    assert Run(Fresh, search, states).0 == [first] + rest;
    if i > 0 {
      assert Run(Fresh, search, states).0[i] == rest[i - 1];
      RunAfterSearch(search, found, tail, i - 1);
    }
  }

  /** After the searching call, call i + 1 hands out found[i + 1] while found
      lasts and answers False after it. */
  lemma RunAfterSearch<S>(search: S -> seq<nat>, found: seq<nat>, tail: seq<S>, i: nat)
    requires i < |tail|
    ensures Run(Respond(Fresh, found).1, search, tail).0[i] ==
              if i + 1 < |found| then Move(found[i + 1]) else Stop
  {
    var a1 := Respond(Fresh, found).1;
    if found == [] {
      assert a1 == AgentState([], true);
      RunExhausted(search, tail);
    } else if |tail| <= |found| - 1 {
      assert a1 == AgentState(found[1..], true);
      RunHandsOutQueue(found[1..], true, search, tail);
    } else {
      assert a1 == AgentState(found[1..], true);
      var k := |found| - 1;
      RunSplit(a1, search, tail[..k], tail[k..]);
      assert tail[..k] + tail[k..] == tail;
      RunHandsOutQueue(found[1..], true, search, tail[..k]);
      assert found[1..][k..] == [];
      RunExhausted(search, tail[k..]);
    }
  }

  /** Running on xs and then on ys is running on xs + ys. */
  lemma {:induction false} RunSplit<S>(a: AgentState, search: S -> seq<nat>, xs: seq<S>, ys: seq<S>)
    ensures Run(a, search, xs + ys) ==
              (Run(a, search, xs).0 + Run(Run(a, search, xs).1, search, ys).0, Run(Run(a, search, xs).1, search, ys).1)
    decreases |xs|
  {
    if xs != [] {
      var (answer, a') := Respond(a, search(xs[0]));
      assert (xs + ys)[0] == xs[0] && (xs + ys)[1..] == xs[1..] + ys;
      RunSplit(a', search, xs[1..], ys);
      var r1 := Run(a', search, xs[1..]);
      var r2 := Run(r1.1, search, ys);
      assert Run(a, search, xs) == ([answer] + r1.0, r1.1);
      assert Run(a, search, xs + ys) == ([answer] + (r1.0 + r2.0), r2.1);
      assert [answer] + (r1.0 + r2.0) == ([answer] + r1.0) + r2.0;
    } else {
      assert xs + ys == ys && Run(a, search, xs) == ([], a);
      assert [] + Run(a, search, ys).0 == Run(a, search, ys).0;
    }
  }

  /** TreeAgent: the searcher's action queue, has_searched, and the search
      the searcher performs. */
  class TreeAgent<S> {
    const search: S -> seq<nat>
    var actionQueue: seq<nat>
    var hasSearched: bool

    /** TreeAgent.__init__ over a searcher whose queue is still empty. */
    constructor (search: S -> seq<nat>)
      ensures this.search == search && AgentState(actionQueue, hasSearched) == Fresh
    {
      this.search := search;
      actionQueue, hasSearched := [], false;
    }

    /** TreeAgent.act: search only when the queue is empty and no search has
        run, then pop the front of the queue. */
    method Act(state: S) returns (r: Answer)
      modifies this
      ensures (r, AgentState(actionQueue, hasSearched)) == Respond(AgentState(old(actionQueue), old(hasSearched)), search(state))
    {
      if actionQueue == [] {
        if hasSearched {
          return Stop;
        }
        actionQueue := search(state);
        hasSearched := true;
      }
      if actionQueue == [] {
        return PopFromEmpty;
      }
      r := Move(actionQueue[0]);
      actionQueue := actionQueue[1..];
    }
  }
}
