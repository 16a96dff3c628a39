/** Invariants of the inner and outer turn loops, proved by induction on
    the remaining proposals. `Attempt` is entered only from a non-terminal
    state, with the trajectory so far free of repeats, chained by
    transitions and live except possibly at its end. */
module TurnLoopProofs {
  import opened Wrappers
  import opened Seqs
  import opened GameState
  import opened TurnLoop

  /** The loop only ever extends the trajectory, keeping it free of repeats,
      chained by transitions and live before its last state; it stops on a
      terminal state exactly when the outcome says so, and it consumes the
      proposals in order. */
  lemma {:induction false} AttemptShape<S(!new), A(!new)>(
    g: Rules<S, A>, n: nat, states: seq<S>, j: nat, proposals: seq<A>)
    requires |states| > 0 && j < n
    requires !g.isTerminal(Last(states))
    requires Distinct(states) && IsChain(g, states) && LiveBeforeLast(g, states)
    ensures var p := Attempt(g, n, states, j, proposals);
      && |p.states| >= |states| && p.states[..|states|] == states
      && Distinct(p.states) && IsChain(g, p.states) && LiveBeforeLast(g, p.states)
      && (p.outcome.Terminal? <==> g.isTerminal(Last(p.states)))
      && !p.outcome.NoAgents?
      && |p.steps| <= |proposals|
      && (forall k :: 0 <= k < |p.steps| ==> p.steps[k].action == proposals[k])
      && (p.outcome.OutOfProposals? ==> |p.steps| == |proposals|)
    decreases |proposals|
  {
    if |proposals| > 0 {
      var p := Attempt(g, n, states, j, proposals);
      var state := Last(states);
      match g.act(state, proposals[0])
      case None =>
        var q := Attempt(g, n, states, j, proposals[1..]);
        AttemptShape(g, n, states, j, proposals[1..]);
        assert p.steps == [p.steps[0]] + q.steps;
        forall k | 0 <= k < |p.steps|
          ensures p.steps[k].action == proposals[k]
        {
          if k > 0 {
            assert p.steps[k] == q.steps[k - 1];
          }
        }
      case Some(s) =>
        if s !in states {
          var states' := states + [s];
          DistinctSnoc(states, s);
          assert ValidTransition(g, state, s) by {
            assert g.act(state, proposals[0]) == Some(s);
          }
          assert IsChain(g, states') by {
            forall k | 0 <= k < |states'| - 1
              ensures ValidTransition(g, states'[k], states'[k + 1])
            {
              if k < |states| - 1 {
                assert states'[k] == states[k] && states'[k + 1] == states[k + 1];
              }
            }
          }
          assert LiveBeforeLast(g, states') by {
            forall k | 0 <= k < |states'| - 1
              ensures !g.isTerminal(states'[k])
            {
              assert states'[k] == states[k];
            }
          }
          if !g.isTerminal(s) {
            var q := Attempt(g, n, states', (j + 1) % n, proposals[1..]);
            AttemptShape(g, n, states', (j + 1) % n, proposals[1..]);
            assert p.steps == [p.steps[0]] + q.steps;
            assert q.states[..|states|] == states by {
              assert q.states[..|states'|][..|states|] == states'[..|states|];
            }
            forall k | 0 <= k < |p.steps|
              ensures p.steps[k].action == proposals[k]
            {
              if k > 0 {
                assert p.steps[k] == q.steps[k - 1];
              }
            }
          }
        }
    }
  }

  /** The step log: each logged result is `act`'s answer, agents are only
      shown live states, consecutive steps follow the retry/rotation rule,
      and the first step asks agent `j` about the current state. */
  lemma {:induction false} AttemptLog<S(!new), A(!new)>(
    g: Rules<S, A>, n: nat, states: seq<S>, j: nat, proposals: seq<A>)
    requires |states| > 0 && j < n
    requires !g.isTerminal(Last(states))
    ensures var p := Attempt(g, n, states, j, proposals);
      && Faithful(g, p.steps) && ShownLive(g, p.steps) && Linked(n, p.steps)
      && (|p.steps| > 0 ==> p.steps[0].shown == Last(states) && p.steps[0].agent == j)
    decreases |proposals|
  {
    if |proposals| > 0 {
      var p := Attempt(g, n, states, j, proposals);
      var state := Last(states);
      var step := Step(j, state, proposals[0], g.act(state, proposals[0]));
      match g.act(state, proposals[0])
      case None =>
        var q := Attempt(g, n, states, j, proposals[1..]);
        AttemptLog(g, n, states, j, proposals[1..]);
        assert p.steps == [step] + q.steps;
        StepsCons(g, n, step, q.steps);
      case Some(s) =>
        if s !in states && !g.isTerminal(s) {
          var states' := states + [s];
          var q := Attempt(g, n, states', (j + 1) % n, proposals[1..]);
          AttemptLog(g, n, states', (j + 1) % n, proposals[1..]);
          assert p.steps == [step] + q.steps;
          StepsCons(g, n, step, q.steps);
        }
    }
  }

  /** The accepted results of `p`'s log are exactly the states `p` appended
      to `states`, plus the repeated state when it ended on a repeat; that
      state is already in the trajectory. */
  predicate AppendsAccepted<S(==), A>(states: seq<S>, p: Play<S, A>)
  {
    && (p.outcome.Repeated? ==>
          && |p.steps| > 0 && Last(p.steps).result.Some?
          && Last(p.steps).result.value in p.states
          && states + Successes(p.steps) == p.states + [Last(p.steps).result.value])
    && (!p.outcome.Repeated? ==> states + Successes(p.steps) == p.states)
  }

  /** The loop appends exactly the accepted successors, except a repeated
      one. */
  lemma {:induction false} AttemptSuccesses<S(!new), A(!new)>(
    g: Rules<S, A>, n: nat, states: seq<S>, j: nat, proposals: seq<A>)
    requires |states| > 0 && j < n
    requires !g.isTerminal(Last(states))
    ensures AppendsAccepted(states, Attempt(g, n, states, j, proposals))
    decreases |proposals|
  {
    if |proposals| > 0 {
      var state := Last(states);
      var step := Step(j, state, proposals[0], g.act(state, proposals[0]));
      match g.act(state, proposals[0])
      case None =>
        AttemptSuccesses(g, n, states, j, proposals[1..]);
        AppendsAcceptedOnReject(states, step, Attempt(g, n, states, j, proposals[1..]));
      case Some(s) =>
        if s in states {
          AppendsAcceptedAtEnd(states, states, step, Repeated);
        } else if g.isTerminal(s) {
          AppendsAcceptedAtEnd(states, states + [s], step, Terminal);
        } else {
          AttemptSuccesses(g, n, states + [s], (j + 1) % n, proposals[1..]);
          AppendsAcceptedOnAccept(states, step, Attempt(g, n, states + [s], (j + 1) % n, proposals[1..]));
        }
    }
  }

  lemma AppendsAcceptedOnReject<S, A>(states: seq<S>, step: Step<S, A>, q: Play<S, A>)
    requires step.result.None? && AppendsAccepted(states, q)
    ensures AppendsAccepted(states, Logged(step, q))
  {
    SuccessesCons(step, q.steps);
  }

  lemma AppendsAcceptedOnAccept<S, A>(states: seq<S>, step: Step<S, A>, q: Play<S, A>)
    requires step.result.Some? && AppendsAccepted(states + [step.result.value], q)
    ensures AppendsAccepted(states, Logged(step, q))
  {
    SuccessesCons(step, q.steps);
    assert states + Successes([step] + q.steps) == (states + [step.result.value]) + Successes(q.steps);
  }

  lemma AppendsAcceptedAtEnd<S, A>(states: seq<S>, ended: seq<S>, step: Step<S, A>, outcome: Outcome)
    requires step.result.Some?
    requires outcome == Repeated ==> ended == states && step.result.value in states
    requires outcome != Repeated ==> ended == states + [step.result.value]
    ensures AppendsAccepted(states, Play(ended, outcome, [step]))
  {
    SuccessesCons(step, []);
    assert [step] + [] == [step];
  }

  /** Prepending a step adds its result, if any, in front. */
  lemma SuccessesCons<S, A>(step: Step<S, A>, rest: seq<Step<S, A>>)
    ensures Successes([step] + rest) == (if step.result.Some? then [step.result.value] else []) + Successes(rest)
    ensures |rest| > 0 ==> Last([step] + rest) == Last(rest)
  {
    assert ([step] + rest)[0] == step && ([step] + rest)[1..] == rest;
  }

  /** Prepending a live, faithful step that is followed correctly by the
      first step of a well-formed log gives a well-formed log. */
  lemma StepsCons<S(!new), A(!new)>(g: Rules<S, A>, n: nat, step: Step<S, A>, rest: seq<Step<S, A>>)
    requires Faithful(g, rest) && ShownLive(g, rest) && Linked(n, rest)
    requires step.result == g.act(step.shown, step.action) && !g.isTerminal(step.shown)
    requires |rest| > 0 ==> Follows(n, step, rest[0])
    ensures Faithful(g, [step] + rest) && ShownLive(g, [step] + rest) && Linked(n, [step] + rest)
  {
    var t := [step] + rest;
    forall k | 0 < k < |t|
      ensures t[k] == rest[k - 1]
    {
    }
  }

  /** The loop as `_run_round` enters it: trajectory `[init]`, counter -1. */
  lemma FirstTurn<S(!new), A(!new)>(g: Rules<S, A>, init: S, n: nat, proposals: seq<A>)
    ensures var p := Turn(g, n, [init], -1, proposals);
      && |p.states| > 0 && p.states[0] == init
      && Distinct(p.states) && IsChain(g, p.states) && LiveBeforeLast(g, p.states)
      && (p.outcome.Terminal? <==> g.isTerminal(Last(p.states)))
      && (p.outcome.NoAgents? <==> n == 0 && !g.isTerminal(init))
      && (g.isTerminal(init) ==> p.states == [init] && p.steps == [])
      && |p.steps| <= |proposals|
      && (forall k :: 0 <= k < |p.steps| ==> p.steps[k].action == proposals[k])
      && (p.outcome.OutOfProposals? ==> |p.steps| == |proposals|)
  {
    if !g.isTerminal(init) && n > 0 {
      AttemptShape(g, n, [init], 0, proposals);
    }
  }

  lemma {:induction false} SuccessesSnoc<S, A>(steps: seq<Step<S, A>>, x: Step<S, A>)
    ensures Successes(steps + [x]) == Successes(steps) + (if x.result.Some? then [x.result.value] else [])
  {
    SuccessesAppend(steps, [x]);
    assert [x][1..] == [];
  }

  lemma {:induction false} SuccessesAppend<S, A>(a: seq<Step<S, A>>, b: seq<Step<S, A>>)
    ensures Successes(a + b) == Successes(a) + Successes(b)
  {
    if |a| == 0 {
      assert a + b == b;
    } else {
      var c := a + b;
      var head := if a[0].result.Some? then [a[0].result.value] else [];
      assert c[0] == a[0] && c[1..] == a[1..] + b;
      assert Successes(c) == head + Successes(a[1..] + b);
      SuccessesAppend(a[1..], b);
      assert Successes(a) == head + Successes(a[1..]);
    }
  }
}
