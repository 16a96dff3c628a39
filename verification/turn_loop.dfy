/** The turn loop of `Game._run_round`.

    Agents are known only by their number `n`. What they decide is an input:
    `proposals` lists, in order, the action returned by each call of
    `decide`, whichever agent made it (agents may be stateful or random, so
    a decision is not a function of the state). Each call is logged as a
    `Step`: which agent was asked, which state it was shown, what it
    proposed and what `act` answered. */
module TurnLoop {
  import opened Wrappers
  import opened Seqs
  import opened GameState

  datatype Step<S, A> = Step(agent: nat, shown: S, action: A, result: Option<S>)

  /** Why the turn loop stopped. `OutOfProposals` means the supplied
      decisions ran out before the round ended (the program would keep
      asking); `NoAgents` is the division by zero in `(i + 1) % len(agents)`
      with an empty agent list, which raises out of the round. */
  datatype Outcome = Terminal | Repeated | OutOfProposals | NoAgents
  {
    /** The loop was left normally, so `learn` is called. */
    predicate Finished()
    {
      Terminal? || Repeated?
    }
  }

  /** The loop's visible effect: the trajectory, why it ended, the log. */
  datatype Play<S, A> = Play(states: seq<S>, outcome: Outcome, steps: seq<Step<S, A>>)

  function Logged<S, A>(step: Step<S, A>, p: Play<S, A>): Play<S, A>
  {
    p.(steps := [step] + p.steps)
  }

  /** One pass of the outer `while not state.is_terminal` loop, `i` being
      the driver's own agent counter (not the state's current player). */
  function Turn<S(==), A(==)>(g: Rules<S, A>, n: nat, states: seq<S>, i: int,
                               proposals: seq<A>): Play<S, A>
    requires |states| > 0
    decreases |proposals|, 1
  {
    if g.isTerminal(Last(states)) then Play(states, Terminal, [])
    else if n == 0 then Play(states, NoAgents, [])
    else Attempt(g, n, states, (i + 1) % n, proposals)
  }

  /** The inner `while new_state == None` loop: agent `j` is asked again
      until `act` accepts; an accepted successor already in the trajectory
      ends the round without being appended. */
  function Attempt<S(==), A(==)>(g: Rules<S, A>, n: nat, states: seq<S>, j: nat,
                                  proposals: seq<A>): Play<S, A>
    requires |states| > 0 && j < n
    decreases |proposals|, 0
  {
    if |proposals| == 0 then Play(states, OutOfProposals, [])
    else
      var state := Last(states);
      var next := g.act(state, proposals[0]);
      var step := Step(j, state, proposals[0], next);
      match next
      case None => Logged(step, Attempt(g, n, states, j, proposals[1..]))
      case Some(s) =>
        if s in states then Play(states, Repeated, [step])
        else Logged(step, Turn(g, n, states + [s], j, proposals[1..]))
  }

  /** The results of the accepted steps, in order. */
  function Successes<S, A>(steps: seq<Step<S, A>>): seq<S>
  {
    if |steps| == 0 then []
    else (if steps[0].result.Some? then [steps[0].result.value] else []) + Successes(steps[1..])
  }

  /** Consecutive steps: a rejection re-asks the same agent about the same
      state; an acceptance moves to the new state and the next agent. */
  predicate Follows<S(==), A>(n: nat, a: Step<S, A>, b: Step<S, A>)
  {
    n > 0 &&
    match a.result
    case None => b.shown == a.shown && b.agent == a.agent
    case Some(s) => b.shown == s && b.agent == (a.agent + 1) % n
  }

  predicate Linked<S(==), A>(n: nat, steps: seq<Step<S, A>>)
  {
    forall k :: 0 <= k < |steps| - 1 ==> Follows(n, steps[k], steps[k + 1])
  }

  /** Every logged result is what `act` answers for the shown state and the
      proposed action. */
  ghost predicate Faithful<S, A>(g: Rules<S, A>, steps: seq<Step<S, A>>)
  {
    forall k :: 0 <= k < |steps| ==> steps[k].result == g.act(steps[k].shown, steps[k].action)
  }

  /** No agent is ever shown a terminal state. */
  ghost predicate ShownLive<S, A>(g: Rules<S, A>, steps: seq<Step<S, A>>)
  {
    forall k :: 0 <= k < |steps| ==> !g.isTerminal(steps[k].shown)
  }

  /** Only the last state of a trajectory may be terminal. */
  ghost predicate LiveBeforeLast<S, A>(g: Rules<S, A>, states: seq<S>)
  {
    forall k :: 0 <= k < |states| - 1 ==> !g.isTerminal(states[k])
  }
}
