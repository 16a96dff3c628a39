# Turn-based game engine: the round and session drivers

This project models the game-independent core of the engine in
`src/lib/game/_game.py`:

- the guard `GameState._action_is_valid`, which a concrete game's `act` uses
  to refuse moves on terminal states and moves outside `state.actions`;
- `Game._run_round`, one round: build the initial state, then loop. Pick the
  next agent with the driver's own counter `i`. Ask it for an action until
  `act` accepts one. Stop on a terminal state, or on a successor already in
  the trajectory. Let every agent learn from the trajectory;
- the per-turn and per-round wait budgets picked from `speed`, and the
  per-turn sleep `turn_wait - (end_t - start_t)`;
- `Game._run_game`, the session: play rounds until the replay condition
  breaks the loop.

A game is given by `GameState.Rules` (`isTerminal`, `actions`, `act`). The
agents are given by their number `n`. What they decide is a finite list of
proposals consumed in order, and every `decide` call is logged as a `Step`:
the agent asked, the state it was shown, its action, and `act`'s answer.

A round ends in one of four outcomes:

- `Terminal`: the state reached is terminal.
- `Repeated`: the successor was already in the trajectory. It is not appended.
- `NoAgents`: an empty agent list with a live initial state. In the source,
  `% len(self.agents)` raises here.
- `OutOfProposals`: the proposals ran out before the round ended.

A session is parametrised by its break condition. `Session.ReplayBreaks` is
the condition as written at lines 68-70 and is the one the findings below are
about. `Session.ReplayBreaksIntended` reverses the count test. The user's
"Play again?" answers are a list of booleans.

Modules:

- `Wrappers`: `Option`.
- `Seqs`: sequence helpers.
- `GameState`: the rules and the guard.
- `TurnLoop`: the round's two loops.
- `TurnLoopProofs`: their invariants.
- `Round`: `RunRound` and its properties.
- `ModArith`: the counter's modular step.
- `Pacing`: wait budgets and sleeps.
- `Session`: the replay loop.

Points where the code behaves differently from what its names and
comments suggest:

- A repeated state ends the round without being appended. An A → B → A game
  gives the trajectory [A, B], not [A, B, A] (`Round.TwoCycle`).
- The agent asked is chosen by the driver's counter, not by the state's
  current player (`Round.AgentRotation`).
- `learn` is called plainly, so a failing `learn` is not caught. The model
  records the calls and nothing else.
- A fixed count of 3 plays one round, not three (see Findings).

## Model

| member | source | states |
|---|---|---|
| GameState.ActionIsValid | src/lib/game/_game.py:239-250 | The guard lets an action through (returning the state itself) exactly when the state is not terminal and the action is among its legal actions. It refuses everything on a terminal state. |
| Round.RunRound | src/lib/game/_game.py:73-120 | The trajectory starts at the initial state. It has no repeated state, each step is a transition `act` allows, and only its last state may be terminal. The round ends `Terminal` exactly when that last state is terminal. It raises on no agents exactly when there are none and the initial state is live. A terminal initial state gives `[init]` and no decisions. Decisions use the proposals in order. `learn` is called once per agent, in agent order, with the whole trajectory, and only when the loop exits normally. |
| Round.RoundLog | src/lib/game/_game.py:90-105 | Every logged result is `act`'s answer for the state shown. No agent is shown a terminal state. Agent 0 is asked first, about the initial state. A rejection re-asks the same agent about the same state. An acceptance moves to the successor and the next agent. The accepted successors are the trajectory after the initial state, plus the repeated state when the round ended on a repeat. |
| Round.AgentRotation | src/lib/game/_game.py:76-96 | The agent asked at decision k is the number of moves accepted before it, modulo the number of agents. |
| Round.RetryWithoutEffect | src/lib/game/_game.py:93-99 | A rejected proposal was refused by `act` and adds nothing to the trajectory. The next decision asks the same agent about the same state. |
| Round.TwoCycle | src/lib/game/_game.py:100-104 | In a game going A → B → A, the round ends `Repeated` after two decisions with trajectory [A, B], and every agent learns from [A, B]. |
| Round.BoundedByStateSpace | src/lib/game/_game.py:101-104 | If every state reachable from the initial one lies in a finite set u, the trajectory has at most the size of u states, and at most that many moves are accepted, whatever the agents propose. |
| Round.TrajectoryFollowsChosenActions | src/lib/game/_game.py:90-105 | Each decision is shown the trajectory state reached by the moves accepted before it. When an accepted move leads to the next trajectory state, that state is what `act` returned for the proposed action. |
| Round.LegalMovesOnly | src/lib/game/_game.py:239-250 | When `act` refuses what the guard refuses, every accepted action was legal in the state shown. When `act` also accepts what the guard lets through, a proposal is rejected exactly when it is illegal. |
| Round.LearnAll | src/lib/game/_game.py:117-118 | One `learn` call per agent, in order, the k-th with the trajectory and player id k. |
| TurnLoopProofs.AttemptShape | src/lib/game/_game.py:90-105 | The loop only extends the trajectory. It keeps the trajectory free of repeats, chained by transitions and live before its last state. It ends `Terminal` exactly on a terminal state and consumes proposals in order. |
| TurnLoopProofs.AttemptLog | src/lib/game/_game.py:93-99 | The inner retry loop's log: results are `act`'s answers, shown states are live, and consecutive decisions follow the retry and rotation rule. |
| TurnLoopProofs.AttemptSuccesses | src/lib/game/_game.py:100-105 | Exactly the accepted successors are appended, except a repeated one, which is already in the trajectory. |
| TurnLoopProofs.FirstTurn | src/lib/game/_game.py:74-76 | The loop as entered with trajectory [init] and counter -1 keeps the round invariants. |
| Pacing.WaitBudget | src/lib/game/_game.py:78-89 | With no screen both waits are 0. With a screen a round waits strictly longer than a turn. The turn wait is 0 exactly when there is no screen or the speed is 2. |
| Pacing.SlowerWaitsLonger | src/lib/game/_game.py:81-89 | With a screen, a slower speed setting waits strictly longer per turn and per round. |
| Pacing.TurnDelay | src/lib/game/_game.py:106-116 | With display off no turn is delayed. With display on, the decision time plus the sleep reaches the turn budget, and a nonzero sleep stops exactly at it. |
| Pacing.RoundDelay | src/lib/game/_game.py:106-119 | A round's sleeps total the round wait when display is off. With display on, the decision times plus the sleeps reach at least one turn budget per turn plus the round wait. When every turn finished within its budget they reach exactly that. When every turn overran, only the round wait is slept. |
| Pacing.RoundSleeps | src/lib/game/_game.py:101-119 | Given one decision time per transition appended to a returned round's trajectory (a count the model assumes here and `Pacing.TurnSleepsPerMove` ties to the accepted moves), the round's sleeps total the round wait when display is off. With display on, decision times plus sleeps reach at least one turn budget per appended transition plus the round wait, and exactly that when every turn finished within its budget. |
| Pacing.TurnSleepsPerMove | src/lib/game/_game.py:100-116 | The number of turn sleeps in a round is the number of accepted moves, less one when the round ended on a repeated state. |
| Pacing.NoScreenNoPacing | src/lib/game/_game.py:67-80 | The session calls `_run_round` without a screen, so both budgets are 0 and no round is paced, as long as the clock does not step back. With display on, a backward clock step is still slept off. |
| Pacing.FastestOnlyRoundWait | src/lib/game/_game.py:81-83 | At speed 2 a round waits only its round budget, as long as the clock does not step back. |
| Session.RunSession | src/lib/game/_game.py:65-71 | The session records only rounds that returned, in the order played. Each is the round its proposals produce, and nothing is recorded beyond the rounds supplied. A session that ends on a raising or unfinished round ends on the round right after the last one recorded. |
| Session.ReplayGames | src/lib/game/_game.py:66-67 | The loop only appends, and each entry is the next round. When it ends on a round that raised or ran out of proposals, that round is the one after the last recorded. |
| Session.ReplayVerdicts | src/lib/game/_game.py:68-71 | After every round the loop went on from, the break condition was false. Where it broke, the condition was true. |
| Session.SessionVerdicts | src/lib/game/_game.py:65-71 | The same for a whole session. The session raises before recording anything exactly when there are no agents and the initial state is live. |
| Session.SessionRunsOut | src/lib/game/_game.py:65-71 | When the break condition holds after none of the supplied rounds, all of them finish, and 'query' has an answer for each, the loop appends every round and the session records them all. |
| Session.ReplayStopsAt | src/lib/game/_game.py:66-71 | If the break condition first holds after round m, the loop records exactly those m rounds and stops. |
| Session.SessionStopsAt | src/lib/game/_game.py:65-71 | The same for a whole session. |
| Session.AsWrittenOneRound | src/lib/game/_game.py:68-70 | As written, a falsy setting plays one round, and so does any int of 2 or more. |
| Session.CountDiscrepancy | src/lib/game/_game.py:68-70 | On the same rounds, a count of m ≥ 2 stops after one round under the condition as written, and after m rounds under the intended one. The one round played is the first of those m. |
| Session.AsWrittenNeverStops | src/lib/game/_game.py:68-70 | As written, an int of 1 or below (0 excepted), or a truthy value other than 'query', never breaks the loop. When every supplied round finishes, the session plays all of them and ends only because the rounds ran out. |
| Session.QueryStopsAtFirstNo | src/lib/game/_game.py:69 | Under 'query', with real answers, the session stops after the round whose question is first answered no. |
| Session.QueryAlwaysYesNeverStops | src/lib/game/_game.py:140-159 | Under 'query', if every answer reads as yes, the session never breaks. With a yes for each supplied round and every round finishing, it plays all of them and ends only because the rounds ran out. |
| Session.IntendedCountPlaysExactly | src/lib/game/_game.py:70 | With the count test reversed, a count of m ≥ 1 plays exactly m rounds. |

## Left out

- Drawing and the display thread (`_draw_state`, `_run_display`, `run`, the
  screen lock): pygame rendering and thread scheduling have no counterpart
  here. Both functions contain `yield from`, so as written calling them only
  creates a generator and draws nothing.
- The pause-on-turn key wait (lines 108-114): it blocks on keyboard events
  and does not change the trajectory.
- Clocks: the time a decision took (`end_t - start_t`) is a parameter of
  `Pacing.TurnDelay`. It may be negative, because wall-clock time can step
  back.
- The `_play_again` prompt itself, and `cli.ask_yn`: an answer is an
  abstract boolean.
- `logging.info` and the `print` in the guard: output only.
- `reward`, `num_players`, `current_player`, `draw`: the drivers never read
  them.
- Concrete games, agents and `GameType.init`. The initial state is a
  parameter, and the same one is used for every round of a session.
- Round.RunRound: the source retries a rejected agent forever. The model's
  proposals are finite, so such a round ends `OutOfProposals` instead.
- Session.RunSession: rounds and answers are finite inputs. Running out of
  either (`OutOfRounds`, `OutOfAnswers`), or a round running out of proposals
  (`RoundUnfinished`), ends the model's session where the source would go on
  waiting.
- Agent exceptions from `decide` or `learn`: agent code is not part of this
  model.
- Round.LearnAll: the source hands every agent the same mutable `states`
  list, which is also the list `_run_round` returns into `games`. The model
  passes a value, so it assumes no `learn` mutates that list; one that did
  would change what later agents see and what the session records.

## Findings

| source | as written | input that shows it | evidently intended | confidence | as-written member | corrected member |
|---|---|---|---|---|---|---|
| src/lib/game/_game.py:70 | The loop breaks when `len(games) < play_again`. | `play_again = 3`: the loop breaks after the first round, since 1 < 3. `play_again = 1` never breaks. | Break once `play_again` rounds are played (`len(games) >= play_again`). | high; not executed | Session.CountDiscrepancy | Session.IntendedCountPlaysExactly |
| src/lib/game/_game.py:140-159 | `_play_again` contains `yield from` (line 150), so calling it returns a generator object. Line 69 tests `not self._play_again()`, which is always false. | `play_again = 'query'`, with the user answering no: the loop goes on. | Ask the user and break on a no. | medium; not executed | Session.QueryAlwaysYesNeverStops | Session.QueryStopsAtFirstNo |

`Session.ReplayBreaks` keeps the count test as written. `Session.RunSession`
takes the break condition as a parameter, so it runs under the corrected one
too. The model takes real answers for 'query', which is the corrected
behaviour. The as-written generator behaviour is the case where every answer
reads as yes.
