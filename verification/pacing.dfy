/** Turn pacing of `Game._run_round`: the speed setting picks a per-turn and
    a per-round wait budget in milliseconds, and after each appended
    transition the driver sleeps for what is left of the turn budget.
    Clock readings are not modelled: the time a turn took is a parameter. */
module Pacing {
  import opened GameState
  import opened TurnLoop
  import opened Round

  /** `(turn_wait, round_wait)` in milliseconds. */
  datatype Budget = Budget(turnWait: int, roundWait: int)

  /** `hasScreen` is the truth value of the `screen` argument. With a
      screen, the fastest speed is the only one with no turn wait, and a
      round always waits longer than a turn. */
  function WaitBudget(hasScreen: bool, speed: int): (b: Budget)
    ensures !hasScreen ==> b == Budget(0, 0)
    ensures hasScreen ==> 0 <= b.turnWait < b.roundWait
    ensures b.turnWait == 0 <==> !hasScreen || speed == 2
  {
    if !hasScreen then Budget(0, 0)
    else if speed == 2 then Budget(0, 10)
    else if speed == 1 then Budget(50, 100)
    else Budget(500, 1000)
  }

  /** 0 for speed 2, 1 for speed 1, 2 for any other value. */
  function Slowness(speed: int): nat
  {
    if speed == 2 then 0 else if speed == 1 then 1 else 2
  }

  /** With a screen, a slower setting waits strictly longer per turn and per
      round. */
  lemma SlowerWaitsLonger(s: int, t: int)
    requires Slowness(s) < Slowness(t)
    ensures WaitBudget(true, s).turnWait < WaitBudget(true, t).turnWait
    ensures WaitBudget(true, s).roundWait < WaitBudget(true, t).roundWait
  {
  }

  /** The sleep after one appended transition, where `elapsed` is the
      clock difference `end_t - start_t` measured from the start of the
      accepted decision. With display on the turn is stretched to its budget
      and never beyond; with display off nothing is waited. A negative
      `elapsed` (the wall clock stepped back) is allowed. */
  function TurnDelay(turnWait: int, elapsed: int, display: bool): (w: nat)
    ensures !display ==> w == 0
    ensures display ==> elapsed + w >= turnWait
    ensures w == 0 || elapsed + w == turnWait
  {
    var waitTime := turnWait - elapsed;
    if waitTime > 0 && display then waitTime else 0
  }

  function Sum(xs: seq<int>): int
  {
    if |xs| == 0 then 0 else xs[0] + Sum(xs[1..])
  }

  /** All pacing sleeps of one round: one `TurnDelay` per appended
      transition, whose durations are `elapsed`, then the round wait, which
      is slept whether or not display is on. With display on, every turn
      that finished within its budget is stretched exactly to it, and a turn
      that overran it is not delayed at all. */
  function RoundDelay(b: Budget, elapsed: seq<int>, display: bool): (total: int)
    ensures b.roundWait >= 0 ==> total >= 0
    ensures !display ==> total == b.roundWait
    ensures display ==> total + Sum(elapsed) >= |elapsed| * b.turnWait + b.roundWait
    ensures display && (forall k :: 0 <= k < |elapsed| ==> elapsed[k] <= b.turnWait) ==>
      total + Sum(elapsed) == |elapsed| * b.turnWait + b.roundWait
    ensures display && (forall k :: 0 <= k < |elapsed| ==> elapsed[k] >= b.turnWait) ==>
      total == b.roundWait
  {
    if |elapsed| == 0 then b.roundWait
    else
      assert |elapsed| * b.turnWait == |elapsed[1..]| * b.turnWait + b.turnWait;
      TurnDelay(b.turnWait, elapsed[0], display) + RoundDelay(b, elapsed[1..], display)
  }

  /** `_run_game` calls `_run_round` without a screen, so however fast the
      agents and whatever the speed, no round is paced as long as the clock
      does not step back. With a turn budget of 0, a backward step of the
      clock is still slept off when display is on. Both this and the next
      lemma follow from the contract of `RoundDelay`. */
  lemma NoScreenNoPacing(speed: int, elapsed: seq<int>, display: bool)
    requires forall k :: 0 <= k < |elapsed| ==> elapsed[k] >= 0
    ensures WaitBudget(false, speed) == Budget(0, 0)
    ensures RoundDelay(WaitBudget(false, speed), elapsed, display) == 0
  {
  }

  /** At the fastest speed a round only waits its round budget: no turn is
      delayed, as long as the clock does not step back. */
  lemma FastestOnlyRoundWait(hasScreen: bool, elapsed: seq<int>, display: bool)
    requires forall k :: 0 <= k < |elapsed| ==> elapsed[k] >= 0
    ensures RoundDelay(WaitBudget(hasScreen, 2), elapsed, display) == WaitBudget(hasScreen, 2).roundWait
  {
  }

  /** The sleeps of a round that returned, `elapsed` holding the decision
      time of each transition appended to its trajectory. That there is one
      such time per appended transition is assumed here, not derived from
      the round's log; `TurnSleepsPerMove` relates that count to the
      accepted moves (no turn sleep follows the repeated successor that ends
      a round, since the loop breaks before reaching the sleep). */
  function RoundSleeps<S, A>(b: Budget, r: RoundResult<S, A>, elapsed: seq<int>, display: bool): (total: int)
    requires r.outcome.Finished() && |elapsed| + 1 == |r.states|
    ensures !display ==> total == b.roundWait
    ensures display ==> total + Sum(elapsed) >= (|r.states| - 1) * b.turnWait + b.roundWait
    ensures display && (forall k :: 0 <= k < |elapsed| ==> elapsed[k] <= b.turnWait) ==>
      total + Sum(elapsed) == (|r.states| - 1) * b.turnWait + b.roundWait
  {
    RoundDelay(b, elapsed, display)
  }

  /** A round sleeps once per accepted move, except the move that found a
      repeated state: the number of turn sleeps is the number of accepted
      moves, less one when the round ended on a repeat. */
  lemma TurnSleepsPerMove<S(!new), A(!new)>(g: Rules<S, A>, init: S, n: nat, proposals: seq<A>)
    ensures var r := RunRound(g, init, n, proposals);
      |r.states| - 1 == |Successes(r.steps)| - (if r.outcome.Repeated? then 1 else 0)
  {
    RoundLog(g, init, n, proposals);
  }
}
