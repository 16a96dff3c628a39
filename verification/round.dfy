/** A whole round, `Game._run_round`: build the initial state, run the turn
    loop from it with the agent counter at -1, then let every agent learn
    from the trajectory. */
module Round {
  import opened Wrappers
  import opened Seqs
  import opened GameState
  import opened TurnLoop
  import opened TurnLoopProofs
  import opened ModArith

  /** `agent.learn(states, player_id)` */
  datatype LearnCall<S> = LearnCall(states: seq<S>, playerId: nat)

  datatype RoundResult<S, A> = RoundResult(
    states: seq<S>,
    outcome: Outcome,
    steps: seq<Step<S, A>>,
    learned: seq<LearnCall<S>>)

  /** `for player_id, agent in enumerate(agents): agent.learn(states, player_id)`:
      one call per agent, in agent order, each with the whole trajectory. */
  function LearnAll<S>(states: seq<S>, n: nat): (r: seq<LearnCall<S>>)
    ensures |r| == n
    ensures forall k :: 0 <= k < n ==> r[k] == LearnCall(states, k)
  {
    if n == 0 then [] else LearnAll(states, n - 1) + [LearnCall(states, n - 1)]
  }

  /** `init` is what `game_type.init(agents)` returned for the `n` agents. */
  function RunRound<S(==,!new), A(==,!new)>(g: Rules<S, A>, init: S, n: nat, proposals: seq<A>): (r: RoundResult<S, A>)
    ensures |r.states| > 0 && r.states[0] == init
    ensures Distinct(r.states) && IsChain(g, r.states) && LiveBeforeLast(g, r.states)
    ensures r.outcome.Terminal? <==> g.isTerminal(Last(r.states))
    ensures r.outcome.NoAgents? <==> n == 0 && !g.isTerminal(init)
    ensures g.isTerminal(init) ==> r.states == [init] && r.steps == []
    ensures |r.steps| <= |proposals|
    ensures forall k :: 0 <= k < |r.steps| ==> r.steps[k].action == proposals[k]
    ensures r.outcome.OutOfProposals? ==> |r.steps| == |proposals|
    ensures r.outcome.Finished() ==> |r.learned| == n
    ensures r.outcome.Finished() ==> forall k :: 0 <= k < n ==> r.learned[k] == LearnCall(r.states, k)
    ensures !r.outcome.Finished() ==> r.learned == []
  {
    FirstTurn(g, init, n, proposals);
    var p := Turn(g, n, [init], -1, proposals);
    RoundResult(p.states, p.outcome, p.steps, if p.outcome.Finished() then LearnAll(p.states, n) else [])
  }

  /** The log of `decide` calls: every result is `act`'s answer for the
      state shown, no agent is shown a terminal state, the first call asks
      agent 0 about the initial state, a rejection re-asks the same agent
      about the same state, an acceptance moves to the successor and the
      next agent. The accepted successors, in order, are the trajectory
      after `init`, except that a repeated successor, already in the
      trajectory, is not appended. */
  lemma RoundLog<S(!new), A(!new)>(g: Rules<S, A>, init: S, n: nat, proposals: seq<A>)
    ensures var r := RunRound(g, init, n, proposals);
      && Faithful(g, r.steps) && ShownLive(g, r.steps) && Linked(n, r.steps)
      && (|r.steps| > 0 ==> r.steps[0].shown == init && r.steps[0].agent == 0)
      && (r.outcome.Repeated? ==>
            && |r.steps| > 0 && Last(r.steps).result.Some?
            && Last(r.steps).result.value in r.states
            && [init] + Successes(r.steps) == r.states + [Last(r.steps).result.value])
      && (!r.outcome.Repeated? ==> [init] + Successes(r.steps) == r.states)
  {
    var r := RunRound(g, init, n, proposals);
    if !g.isTerminal(init) && n > 0 {
      var p := Attempt(g, n, [init], 0, proposals);
      assert Turn(g, n, [init], -1, proposals) == p;
      assert r.states == p.states && r.outcome == p.outcome && r.steps == p.steps;
      AttemptLog(g, n, [init], 0, proposals);
      AttemptSuccesses(g, n, [init], 0, proposals);
    } else {
      assert r.states == [init] && r.steps == [] && !r.outcome.Repeated?;
    }
  }

  /** Agents are picked by the driver's own counter: the agent asked at
      call `k` is the number of transitions accepted before it, modulo the
      number of agents. So it starts at agent 0, moves on exactly once per
      accepted transition and never looks at the state's current player. */
  lemma AgentRotation<S(!new), A(!new)>(g: Rules<S, A>, init: S, n: nat, proposals: seq<A>)
    requires n > 0
    ensures var r := RunRound(g, init, n, proposals);
      forall k :: 0 <= k < |r.steps| ==> r.steps[k].agent == |Successes(r.steps[..k])| % n
  {
    var r := RunRound(g, init, n, proposals);
    RoundLog(g, init, n, proposals);
    forall k | 0 <= k < |r.steps|
      ensures r.steps[k].agent == |Successes(r.steps[..k])| % n
    {
      RotationAt(n, r.steps, k);
    }
  }

  lemma {:induction false} RotationAt<S, A>(n: nat, steps: seq<Step<S, A>>, k: nat)
    requires n > 0 && k < |steps|
    requires Linked(n, steps) && steps[0].agent == 0
    ensures steps[k].agent == |Successes(steps[..k])| % n
  {
    if k > 0 {
      var prev := steps[k - 1];
      var m := |Successes(steps[..k - 1])|;
      RotationAt(n, steps, k - 1);
      assert prev.agent == m % n;
      assert Follows(n, prev, steps[k]);
      assert steps[..k] == steps[..k - 1] + [prev];
      SuccessesSnoc(steps[..k - 1], prev);
      if prev.result.Some? {
        assert |Successes(steps[..k])| == m + 1;
        assert steps[k].agent == (m % n + 1) % n;
        ModSucc(m, n);
      } else {
        assert |Successes(steps[..k])| == m;
      }
    } else {
      assert steps[..0] == [];
    }
  }

  /** A rejected proposal has no effect: the trajectory built so far is
      unchanged and the next call asks the same agent about the same state. */
  lemma RetryWithoutEffect<S(!new), A(!new)>(g: Rules<S, A>, init: S, n: nat, proposals: seq<A>, k: nat)
    requires var r := RunRound(g, init, n, proposals);
      k < |r.steps| && r.steps[k].result.None?
    ensures var r := RunRound(g, init, n, proposals);
      && g.act(r.steps[k].shown, proposals[k]).None?
      && Successes(r.steps[..k + 1]) == Successes(r.steps[..k])
      && (k + 1 < |r.steps| ==> r.steps[k + 1].shown == r.steps[k].shown && r.steps[k + 1].agent == r.steps[k].agent)
  {
    var r := RunRound(g, init, n, proposals);
    RoundLog(g, init, n, proposals);
    assert r.steps[..k + 1] == r.steps[..k] + [r.steps[k]];
    SuccessesSnoc(r.steps[..k], r.steps[k]);
    if k + 1 < |r.steps| {
      assert Follows(n, r.steps[k], r.steps[k + 1]);
    }
  }

  /** A game that goes A -> B -> A stops after B: the trajectory is [A, B],
      the returning A is not appended, and every agent learns from [A, B]. */
  lemma TwoCycle<S(!new), A(!new)>(g: Rules<S, A>, a: S, b: S, x: A, y: A, n: nat, rest: seq<A>)
    requires n > 0 && a != b && !g.isTerminal(a) && !g.isTerminal(b)
    requires g.act(a, x) == Some(b) && g.act(b, y) == Some(a)
    ensures var r := RunRound(g, a, n, [x, y] + rest);
      && r.states == [a, b] && r.outcome == Repeated && |r.steps| == 2
      && r.learned == LearnAll([a, b], n)
  {
    var ps := [x, y] + rest;
    assert ps[0] == x && ps[1..] == [y] + rest && ([y] + rest)[0] == y;
    assert Last([a]) == a && Last([a, b]) == b && [a] + [b] == [a, b];
    assert b !in [a] && a in [a, b];
    var second := Attempt(g, n, [a, b], 1 % n, [y] + rest);
    assert second == Play([a, b], Repeated, [Step(1 % n, b, y, Some(a))]);
    assert Turn(g, n, [a, b], 0, [y] + rest) == second;
    var first := Attempt(g, n, [a], 0, ps);
    assert first == Logged(Step(0, a, x, Some(b)), second);
    assert Turn(g, n, [a], -1, ps) == first;
  }

  /** Cycle detection bounds a round: if every state reachable from `init`
      lies in a finite set `u`, the trajectory has at most |u| states and at
      most |u| transitions are accepted, whatever the agents propose. */
  lemma BoundedByStateSpace<S(!new), A(!new)>(g: Rules<S, A>, init: S, n: nat, proposals: seq<A>, u: set<S>)
    requires init in u && Closed(g, u)
    ensures var r := RunRound(g, init, n, proposals);
      |r.states| <= |u| && |Successes(r.steps)| <= |u|
  {
    var r := RunRound(g, init, n, proposals);
    ChainStaysInside(g, r.states, u);
    DistinctCard(r.states);
    SubsetCard((set x | x in r.states), u);
    RoundLog(g, init, n, proposals);
    assert |Successes(r.steps)| <= |r.states| by {
      if r.outcome.Repeated? {
        assert |[init] + Successes(r.steps)| == |r.states| + 1;
      } else {
        assert |[init] + Successes(r.steps)| == |r.states|;
      }
    }
  }

  lemma {:induction false} ChainStaysInside<S(!new), A(!new)>(g: Rules<S, A>, states: seq<S>, u: set<S>)
    requires |states| > 0 && states[0] in u && Closed(g, u) && IsChain(g, states)
    ensures forall k :: 0 <= k < |states| ==> states[k] in u
  {
    forall k | 0 <= k < |states|
      ensures states[k] in u
    {
      InsideAt(g, states, u, k);
    }
  }

  lemma {:induction false} InsideAt<S(!new), A(!new)>(g: Rules<S, A>, states: seq<S>, u: set<S>, k: nat)
    requires k < |states| && states[0] in u && Closed(g, u) && IsChain(g, states)
    ensures states[k] in u
  {
    if k > 0 {
      InsideAt(g, states, u, k - 1);
      assert ValidTransition(g, states[k - 1], states[k]);
      var a :| g.act(states[k - 1], a) == Some(states[k]);
    }
  }

  /** When `act` refuses whatever the guard `_action_is_valid` refuses, every
      accepted proposal was a legal action of the state it was made in; when
      it also accepts whatever the guard lets through, a proposal is
      rejected exactly when it is illegal there. */
  lemma LegalMovesOnly<S(!new), A(!new)>(g: Rules<S, A>, init: S, n: nat, proposals: seq<A>)
    requires RespectsValidation(g)
    ensures var r := RunRound(g, init, n, proposals);
      forall k :: 0 <= k < |r.steps| && r.steps[k].result.Some? ==>
        r.steps[k].action in g.actions(r.steps[k].shown)
    ensures var r := RunRound(g, init, n, proposals);
      ActsOnLegal(g) ==>
        forall k :: 0 <= k < |r.steps| ==>
          (r.steps[k].result.None? <==> r.steps[k].action !in g.actions(r.steps[k].shown))
  {
    var r := RunRound(g, init, n, proposals);
    RoundLog(g, init, n, proposals);
    forall k | 0 <= k < |r.steps|
      ensures r.steps[k].result.Some? ==> r.steps[k].action in g.actions(r.steps[k].shown)
      ensures ActsOnLegal(g) ==> (r.steps[k].result.None? <==> r.steps[k].action !in g.actions(r.steps[k].shown))
    {
      var st := r.steps[k];
      assert st.result == g.act(st.shown, st.action);
      assert !g.isTerminal(st.shown);
      if st.result.Some? {
        assert ActionIsValid(g, st.shown, st.action).Some?;
      }
      if ActsOnLegal(g) && st.action in g.actions(st.shown) {
        assert ActionIsValid(g, st.shown, st.action).Some?;
      }
    }
  }

  /** The trajectory is made of the chosen actions: decision `t` is shown
      the state reached after the moves accepted before it, and when it is
      accepted and leads to a new state, that state is what `act` returned
      for the proposed action. */
  lemma TrajectoryFollowsChosenActions<S(!new), A(!new)>(g: Rules<S, A>, init: S, n: nat, proposals: seq<A>)
    ensures var r := RunRound(g, init, n, proposals);
      forall t :: 0 <= t < |r.steps| ==>
        && |Successes(r.steps[..t])| < |r.states|
        && r.steps[t].shown == r.states[|Successes(r.steps[..t])|]
    ensures var r := RunRound(g, init, n, proposals);
      forall t :: 0 <= t < |r.steps| && r.steps[t].result.Some? && |Successes(r.steps[..t])| + 1 < |r.states| ==>
        g.act(r.states[|Successes(r.steps[..t])|], proposals[t]) == Some(r.states[|Successes(r.steps[..t])| + 1])
  {
    var r := RunRound(g, init, n, proposals);
    RoundLog(g, init, n, proposals);
    forall t | 0 <= t < |r.steps|
      ensures |Successes(r.steps[..t])| < |r.states|
      ensures r.steps[t].shown == r.states[|Successes(r.steps[..t])|]
      ensures r.steps[t].result.Some? && |Successes(r.steps[..t])| + 1 < |r.states| ==>
        g.act(r.states[|Successes(r.steps[..t])|], proposals[t]) == Some(r.states[|Successes(r.steps[..t])| + 1])
    {
      assert LogAppendsAccepted(g, init, n, r.states, r.steps, r.outcome.Repeated?);
      ShownAt(init, n, r.states, r.steps, r.outcome.Repeated?, t);
      if r.steps[t].result.Some? && |Successes(r.steps[..t])| + 1 < |r.states| {
        AcceptedAt(g, init, n, r.states, r.steps, r.outcome.Repeated?, t);
      }
    }
  }

  /** The hypotheses of `AcceptedAt`: a faithful log whose
      accepted results spell out the trajectory after `init`, plus the
      repeated state when `repeated` holds. */
  ghost predicate LogAppendsAccepted<S(!new), A(!new)>(
    g: Rules<S, A>, init: S, n: nat, states: seq<S>, steps: seq<Step<S, A>>, repeated: bool)
  {
    && |steps| > 0 && Linked(n, steps) && Faithful(g, steps) && steps[0].shown == init
    && (repeated ==>
          && Last(steps).result.Some?
          && [init] + Successes(steps) == states + [Last(steps).result.value])
    && (!repeated ==> [init] + Successes(steps) == states)
  }

  /** Decision `t` is shown the trajectory's state at the number of moves
      accepted before it. */
  lemma ShownAt<S, A>(init: S, n: nat, states: seq<S>, steps: seq<Step<S, A>>, repeated: bool, t: nat)
    requires t < |steps| && Linked(n, steps) && steps[0].shown == init
    requires repeated ==>
      && Last(steps).result.Some?
      && [init] + Successes(steps) == states + [Last(steps).result.value]
    requires !repeated ==> [init] + Successes(steps) == states
    ensures |Successes(steps[..t])| < |states|
    ensures steps[t].shown == states[|Successes(steps[..t])|]
    ensures Successes(steps) == Successes(steps[..t]) + Successes(steps[t..])
  {
    SplitSuccesses(steps, t);
    ShownIsCurrent(init, n, steps, t);
    if repeated {
      LastAcceptedAfter(steps, t);
    }
    PrefixIndex(states, init, Successes(steps[..t]), Successes(steps[t..]), repeated,
                if repeated then Last(steps).result.value else init);
  }

  lemma SplitSuccesses<S, A>(steps: seq<Step<S, A>>, t: nat)
    requires t <= |steps|
    ensures Successes(steps) == Successes(steps[..t]) + Successes(steps[t..])
  {
    assert steps == steps[..t] + steps[t..];
    SuccessesAppend(steps[..t], steps[t..]);
  }

  /** A suffix that ends with an accepted step has an accepted step. */
  lemma LastAcceptedAfter<S, A>(steps: seq<Step<S, A>>, t: nat)
    requires t < |steps| && Last(steps).result.Some?
    ensures |Successes(steps[t..])| > 0
  {
    var end := |steps| - 1;
    assert steps[t..] == steps[t..end] + [steps[end]];
    SuccessesSnoc(steps[t..end], steps[end]);
  }

  /** Reading `[init] + before + after` at `|before|` reads its prefix
      `states`, which is all of it or all of it but one last element. */
  lemma PrefixIndex<T>(states: seq<T>, init: T, before: seq<T>, after: seq<T>, repeated: bool, v: T)
    requires repeated ==> |after| > 0 && [init] + (before + after) == states + [v]
    requires !repeated ==> [init] + (before + after) == states
    ensures |before| < |states|
    ensures states[|before|] == Last([init] + before)
  {
    var all := [init] + (before + after);
    assert all[|before|] == Last([init] + before);
    assert states == all[..|states|];
  }

  /** An accepted decision that leads to a new state leads to the next state
      of the trajectory. */
  lemma AcceptedAt<S(!new), A(!new)>(
    g: Rules<S, A>, init: S, n: nat, states: seq<S>, steps: seq<Step<S, A>>, repeated: bool, t: nat)
    requires t < |steps| && LogAppendsAccepted(g, init, n, states, steps, repeated)
    requires steps[t].result.Some? && |Successes(steps[..t])| + 1 < |states|
    ensures g.act(states[|Successes(steps[..t])|], steps[t].action) == Some(states[|Successes(steps[..t])| + 1])
  {
    ShownAt(init, n, states, steps, repeated, t);
    var before := Successes(steps[..t]);
    var after := Successes(steps[t..]);
    var m := |before|;
    var all := [init] + Successes(steps);
    assert all == ([init] + before) + after;
    assert states[m + 1] == all[m + 1];
    assert steps[t..][0] == steps[t];
    assert after[0] == steps[t].result.value;
    assert steps[t].result == g.act(steps[t].shown, steps[t].action);
  }

  /** Each decision is shown the state the accepted moves before it led to. */
  lemma {:induction false} ShownIsCurrent<S, A>(init: S, n: nat, steps: seq<Step<S, A>>, t: nat)
    requires t < |steps| && Linked(n, steps) && steps[0].shown == init
    ensures steps[t].shown == Last([init] + Successes(steps[..t]))
  {
    if t == 0 {
      assert steps[..0] == [];
    } else {
      ShownIsCurrent(init, n, steps, t - 1);
      assert Follows(n, steps[t - 1], steps[t]);
      assert steps[..t] == steps[..t - 1] + [steps[t - 1]];
      SuccessesSnoc(steps[..t - 1], steps[t - 1]);
    }
  }

}
