/** A session, `Game._run_game`: play rounds, appending each finished
    round's result to `games`, until the replay condition breaks the loop.

    Each round gets its own list of proposals. A round that does not return
    ends the session where it stands: `RoundRaised` for the division by zero
    of an empty agent list, `RoundUnfinished` when its proposals ran out.
    The user's answers to "Play again?" are an input consumed one per
    question; the question is only put under the `Query` policy. */
module Session {
  import opened GameState
  import opened TurnLoop
  import opened Round

  /** The `play_again` argument, by how the break condition reads it:
      `Query` is the string 'query'; `Count(n)` any int, the booleans
      included (`False` is `Count(0)`, `True` is `Count(1)`); `Off` any
      other falsy value (`None`, ''); `Other` any other truthy value. */
  datatype PlayAgain = Off | Query | Count(n: int) | Other

  predicate Falsy(p: PlayAgain)
  {
    p.Off? || (p.Count? && p.n == 0)
  }

  /** The break condition exactly as written: falsy, or a negative answer to
      the query, or an int larger than the number of rounds played. `answer`
      stands for the truth value of `self._play_again()`. As written that
      call returns a generator object, which is always truthy, so the query
      disjunct only fires when `answer` is read as the user's real answer,
      the corrected reading (see `QueryAlwaysYesNeverStops`). */
  predicate ReplayBreaks(p: PlayAgain, played: nat, answer: bool)
  {
    Falsy(p) || (p.Query? && !answer) || (p.Count? && played < p.n)
  }

  /** The break condition with the count test the other way round, so that
      `Count(n)` stops once `n` rounds are played. */
  predicate ReplayBreaksIntended(p: PlayAgain, played: nat, answer: bool)
  {
    Falsy(p) || (p.Query? && !answer) || (p.Count? && played >= p.n)
  }

  datatype SessionEnd = Stopped | RoundRaised | RoundUnfinished | OutOfRounds | OutOfAnswers

  datatype SessionResult<S, A> = SessionResult(games: seq<RoundResult<S, A>>, end: SessionEnd)

  /** The answer the break condition sees after round `k` (0-based). Only
      `Query` asks; every other policy is given `true`, which neither
      condition reads. */
  function Answer(p: PlayAgain, answers: seq<bool>, k: nat): bool
  {
    if p.Query? && k < |answers| then answers[k] else true
  }

  /** Dropping the first answer moves every later one a place forward. */
  lemma AnswerShift(p: PlayAgain, answers: seq<bool>, rest: seq<bool>)
    requires p.Query? ==> |answers| > 0 && rest == answers[1..]
    requires !p.Query? ==> rest == answers
    ensures forall i: nat :: Answer(p, rest, i) == if p.Query? then Answer(p, answers, i + 1) else true
  {
  }

  /** How many of the rounds recorded after the first `before` were followed
      by another round: all of them, except the last when the loop broke
      after it or had no answer to decide with. */
  function Continued<S, A>(r: SessionResult<S, A>, before: nat): int
  {
    |r.games| - before - (if r.end.Stopped? || r.end.OutOfAnswers? then 1 else 0)
  }

  /** The loop from the point where `games` have been played; `stop` is the
      break condition and `rounds` what the coming calls of `_run_round`
      produce, in order (only those before the break are observed). */
  function Replay<S, A>(
    stop: (PlayAgain, nat, bool) -> bool, p: PlayAgain,
    rounds: seq<RoundResult<S, A>>, answers: seq<bool>, games: seq<RoundResult<S, A>>): SessionResult<S, A>
    decreases |rounds|
  {
    if |rounds| == 0 then SessionResult(games, OutOfRounds)
    else
      var round := rounds[0];
      if round.outcome.NoAgents? then SessionResult(games, RoundRaised)
      else if round.outcome.OutOfProposals? then SessionResult(games, RoundUnfinished)
      else if p.Query? && |answers| == 0 then SessionResult(games + [round], OutOfAnswers)
      else
        var played := games + [round];
        if stop(p, |played|, Answer(p, answers, 0)) then SessionResult(played, Stopped)
        else Replay(stop, p, rounds[1..], if p.Query? then answers[1..] else answers, played)
  }

  /** What the loop records from any point on: it only appends, each
      appended entry is the finished round of the next proposal list, and
      how it ended says how much it recorded. */
  lemma {:induction false} ReplayGames<S, A>(
    stop: (PlayAgain, nat, bool) -> bool, p: PlayAgain,
    rounds: seq<RoundResult<S, A>>, answers: seq<bool>, games: seq<RoundResult<S, A>>)
    ensures var r := Replay(stop, p, rounds, answers, games);
      && |games| <= |r.games| <= |games| + |rounds|
      && r.games[..|games|] == games
      && (forall k :: 0 <= k < |r.games| - |games| ==>
            r.games[|games| + k] == rounds[k] && rounds[k].outcome.Finished())
      && (r.end == OutOfRounds ==> |r.games| == |games| + |rounds|)
      && (r.end == RoundRaised ==> |r.games| < |games| + |rounds| && rounds[|r.games| - |games|].outcome.NoAgents?)
      && (r.end == RoundUnfinished ==>
            |r.games| < |games| + |rounds| && rounds[|r.games| - |games|].outcome.OutOfProposals?)
      && (r.end == OutOfAnswers ==> p.Query? && |r.games| == |games| + |answers| + 1)
    decreases |rounds|
  {
    if |rounds| > 0 {
      var round := rounds[0];
      var played := games + [round];
      if round.outcome.Finished() && !(p.Query? && |answers| == 0) && !stop(p, |played|, Answer(p, answers, 0)) {
        var rest := if p.Query? then answers[1..] else answers;
        var r := Replay(stop, p, rounds[1..], rest, played);
        ReplayGames(stop, p, rounds[1..], rest, played);
        assert r.games[..|games|] == games by {
          assert r.games[..|played|][..|games|] == played[..|games|];
        }
        forall k | 0 <= k < |r.games| - |games|
          ensures r.games[|games| + k] == rounds[k]
          ensures rounds[k].outcome.Finished()
        {
          if k == 0 {
            assert r.games[|games|] == r.games[..|played|][|games|];
          } else {
            assert r.games[|played| + (k - 1)] == rounds[1..][k - 1];
          }
        }
      }
    }
  }

  /** Why the loop went on and why it stopped: after each round it went on
      from, `stop` did not hold; where it broke, `stop` held. */
  lemma {:induction false} ReplayVerdicts<S, A>(
    stop: (PlayAgain, nat, bool) -> bool, p: PlayAgain,
    rounds: seq<RoundResult<S, A>>, answers: seq<bool>, games: seq<RoundResult<S, A>>)
    ensures var r := Replay(stop, p, rounds, answers, games);
      && |r.games| >= |games|
      && (forall i :: 0 <= i < Continued(r, |games|) ==> !stop(p, |games| + i + 1, Answer(p, answers, i)))
      && (r.end == Stopped ==>
            |r.games| > |games| && stop(p, |r.games|, Answer(p, answers, |r.games| - |games| - 1)))
    decreases |rounds|
  {
    if |rounds| > 0 {
      var round := rounds[0];
      var played := games + [round];
      if round.outcome.Finished() && !(p.Query? && |answers| == 0) && !stop(p, |played|, Answer(p, answers, 0)) {
        var rest := if p.Query? then answers[1..] else answers;
        var r := Replay(stop, p, rounds[1..], rest, played);
        ReplayVerdicts(stop, p, rounds[1..], rest, played);
        AnswerShift(p, answers, rest);
        assert Continued(r, |games|) == Continued(r, |played|) + 1;
        forall i | 0 <= i < Continued(r, |games|)
          ensures !stop(p, |games| + i + 1, Answer(p, answers, i))
        {
          if i == 0 {
            assert |games| + i + 1 == |played|;
          } else {
            assert i - 1 < Continued(r, |played|);
            assert Answer(p, rest, i - 1) == Answer(p, answers, i);
            assert |played| + (i - 1) + 1 == |games| + i + 1;
          }
        }
        if r.end == Stopped {
          assert Answer(p, rest, |r.games| - |played| - 1) == Answer(p, answers, |r.games| - |games| - 1);
        }
      }
    }
  }

  /** What the session's calls of `_run_round` produce, one per proposal list. */
  function Plays<S(==,!new), A(==,!new)>(g: Rules<S, A>, init: S, n: nat, rounds: seq<seq<A>>): (r: seq<RoundResult<S, A>>)
    ensures |r| == |rounds|
    ensures forall k :: 0 <= k < |rounds| ==> r[k] == RunRound(g, init, n, rounds[k])
  {
    seq(|rounds|, k requires 0 <= k < |rounds| => RunRound(g, init, n, rounds[k]))
  }

  /** `games = []` followed by the loop. The session holds finished rounds
      only, in the order played, each the round its proposals produce; a
      session that ends inside a round ends at the round after the last one
      recorded. */
  function RunSession<S(==,!new), A(==,!new)>(
    stop: (PlayAgain, nat, bool) -> bool, g: Rules<S, A>, init: S, n: nat, p: PlayAgain,
    rounds: seq<seq<A>>, answers: seq<bool>): (r: SessionResult<S, A>)
    ensures |r.games| <= |rounds|
    ensures r.games == Plays(g, init, n, rounds)[..|r.games|]
    ensures forall k :: 0 <= k < |r.games| ==> r.games[k].outcome.Finished()
    ensures r.end == OutOfRounds ==> |r.games| == |rounds|
    ensures r.end == RoundRaised ==> |r.games| < |rounds| && RunRound(g, init, n, rounds[|r.games|]).outcome.NoAgents?
    ensures r.end == RoundUnfinished ==>
      |r.games| < |rounds| && RunRound(g, init, n, rounds[|r.games|]).outcome.OutOfProposals?
    ensures r.end == OutOfAnswers ==> p.Query? && |r.games| == |answers| + 1
  {
    var plays := Plays(g, init, n, rounds);
    ReplayFromStart(stop, p, plays, answers);
    Replay(stop, p, plays, answers, [])
  }

  /** `ReplayGames` from an empty `games`. */
  lemma ReplayFromStart<S, A>(
    stop: (PlayAgain, nat, bool) -> bool, p: PlayAgain, rounds: seq<RoundResult<S, A>>, answers: seq<bool>)
    ensures var r := Replay(stop, p, rounds, answers, []);
      && |r.games| <= |rounds|
      && r.games == rounds[..|r.games|]
      && (forall k :: 0 <= k < |r.games| ==> r.games[k].outcome.Finished())
      && (r.end == OutOfRounds ==> |r.games| == |rounds|)
      && (r.end == RoundRaised ==> |r.games| < |rounds| && rounds[|r.games|].outcome.NoAgents?)
      && (r.end == RoundUnfinished ==> |r.games| < |rounds| && rounds[|r.games|].outcome.OutOfProposals?)
      && (r.end == OutOfAnswers ==> p.Query? && |r.games| == |answers| + 1)
  {
    var r := Replay(stop, p, rounds, answers, []);
    ReplayGames(stop, p, rounds, answers, []);
    forall k | 0 <= k < |r.games|
      ensures r.games[k] == rounds[k] && r.games[k].outcome.Finished()
    {
      assert r.games[0 + k] == rounds[k];
    }
  }

  /** The session breaks at the first round after which `stop` holds and
      never before; an empty agent list with a live initial state raises
      before any round is recorded, and nothing else raises. */
  lemma SessionVerdicts<S(!new), A(!new)>(
    stop: (PlayAgain, nat, bool) -> bool, g: Rules<S, A>, init: S, n: nat, p: PlayAgain,
    rounds: seq<seq<A>>, answers: seq<bool>)
    ensures var r := RunSession(stop, g, init, n, p, rounds, answers);
      && (forall i :: 0 <= i < Continued(r, 0) ==> !stop(p, i + 1, Answer(p, answers, i)))
      && (r.end == Stopped ==> |r.games| > 0 && stop(p, |r.games|, Answer(p, answers, |r.games| - 1)))
      && (r.end == RoundRaised <==> |rounds| > 0 && n == 0 && !g.isTerminal(init))
      && (r.end == RoundRaised ==> r.games == [])
  {
    var plays := Plays(g, init, n, rounds);
    assert RunSession(stop, g, init, n, p, rounds, answers) == Replay(stop, p, plays, answers, []);
    VerdictsFromStart(stop, p, plays, answers);
    SessionRaises(stop, g, init, n, p, rounds, answers);
  }

  /** `ReplayVerdicts` from an empty `games`. */
  lemma VerdictsFromStart<S, A>(
    stop: (PlayAgain, nat, bool) -> bool, p: PlayAgain, rounds: seq<RoundResult<S, A>>, answers: seq<bool>)
    ensures var r := Replay(stop, p, rounds, answers, []);
      && (forall i :: 0 <= i < Continued(r, 0) ==> !stop(p, i + 1, Answer(p, answers, i)))
      && (r.end == Stopped ==> |r.games| > 0 && stop(p, |r.games|, Answer(p, answers, |r.games| - 1)))
  {
    var r := Replay(stop, p, rounds, answers, []);
    ReplayVerdicts(stop, p, rounds, answers, []);
    forall i | 0 <= i < Continued(r, 0)
      ensures !stop(p, i + 1, Answer(p, answers, i))
    {
      var none: seq<RoundResult<S, A>> := [];
      assert !stop(p, |none| + i + 1, Answer(p, answers, i));
    }
  }

  /** The part of `SessionVerdicts` about the division by zero. */
  lemma SessionRaises<S(!new), A(!new)>(
    stop: (PlayAgain, nat, bool) -> bool, g: Rules<S, A>, init: S, n: nat, p: PlayAgain,
    rounds: seq<seq<A>>, answers: seq<bool>)
    ensures var r := RunSession(stop, g, init, n, p, rounds, answers);
      && (r.end == RoundRaised <==> |rounds| > 0 && n == 0 && !g.isTerminal(init))
      && (r.end == RoundRaised ==> r.games == [])
  {
    var plays := Plays(g, init, n, rounds);
    var r := Replay(stop, p, plays, answers, []);
    ReplayGames(stop, p, plays, answers, []);
    if r.end == RoundRaised {
      var k := |r.games|;
      assert plays[k] == RunRound(g, init, n, rounds[k]);
      assert plays[0] == RunRound(g, init, n, rounds[0]);
      if k > 0 {
        assert false;
      }
    }
    if |rounds| > 0 && n == 0 && !g.isTerminal(init) {
      assert plays[0] == RunRound(g, init, n, rounds[0]);
      assert plays[0].outcome.NoAgents?;
    }
  }

  /** One pass of the loop that does not break. */
  lemma ReplayStep<S, A>(
    stop: (PlayAgain, nat, bool) -> bool, p: PlayAgain,
    rounds: seq<RoundResult<S, A>>, answers: seq<bool>, games: seq<RoundResult<S, A>>)
    requires |rounds| > 0 && rounds[0].outcome.Finished()
    requires p.Query? ==> |answers| > 0
    requires !stop(p, |games| + 1, Answer(p, answers, 0))
    ensures Replay(stop, p, rounds, answers, games)
         == Replay(stop, p, rounds[1..], if p.Query? then answers[1..] else answers, games + [rounds[0]])
  {
  }

  /** If the first `m` rounds are finished and `stop` holds after the last
      of them but after none before, the loop records exactly those rounds
      and breaks. */
  lemma {:induction false} ReplayStopsAt<S, A>(
    stop: (PlayAgain, nat, bool) -> bool, p: PlayAgain,
    rounds: seq<RoundResult<S, A>>, answers: seq<bool>, games: seq<RoundResult<S, A>>, m: nat)
    requires 0 < m <= |rounds|
    requires p.Query? ==> m <= |answers|
    requires forall k :: 0 <= k < m ==> rounds[k].outcome.Finished()
    requires forall k :: 0 <= k < m - 1 ==> !stop(p, |games| + k + 1, Answer(p, answers, k))
    requires stop(p, |games| + m, Answer(p, answers, m - 1))
    ensures var r := Replay(stop, p, rounds, answers, games);
      r.end == Stopped && r.games == games + rounds[..m]
    decreases m
  {
    if m > 1 {
      var played := games + [rounds[0]];
      var rest := if p.Query? then answers[1..] else answers;
      ReplayStep(stop, p, rounds, answers, games);
      AnswerShift(p, answers, rest);
      ShiftedVerdicts(stop, p, rounds, answers, rest, games, m);
      ReplayStopsAt(stop, p, rounds[1..], rest, played, m - 1);
      assert played + rounds[1..][..m - 1] == games + rounds[..m];
    } else {
      ReplayBreakNow(stop, p, rounds, answers, games);
      assert rounds[..1] == [rounds[0]];
    }
  }

  /** One pass of the loop that breaks. */
  lemma ReplayBreakNow<S, A>(
    stop: (PlayAgain, nat, bool) -> bool, p: PlayAgain,
    rounds: seq<RoundResult<S, A>>, answers: seq<bool>, games: seq<RoundResult<S, A>>)
    requires |rounds| > 0 && rounds[0].outcome.Finished()
    requires p.Query? ==> |answers| > 0
    requires stop(p, |games| + 1, Answer(p, answers, 0))
    ensures Replay(stop, p, rounds, answers, games) == SessionResult(games + [rounds[0]], Stopped)
  {
  }

  /** The hypotheses of `ReplayStopsAt`, one round further on. */
  lemma ShiftedVerdicts<S, A>(
    stop: (PlayAgain, nat, bool) -> bool, p: PlayAgain,
    rounds: seq<RoundResult<S, A>>, answers: seq<bool>, rest: seq<bool>, games: seq<RoundResult<S, A>>, m: nat)
    requires 1 < m <= |rounds|
    requires forall i: nat :: Answer(p, rest, i) == if p.Query? then Answer(p, answers, i + 1) else true
    requires forall k :: 0 <= k < m ==> rounds[k].outcome.Finished()
    requires forall k :: 0 <= k < m - 1 ==> !stop(p, |games| + k + 1, Answer(p, answers, k))
    requires stop(p, |games| + m, Answer(p, answers, m - 1))
    ensures forall k :: 0 <= k < m - 1 ==> rounds[1..][k].outcome.Finished()
    ensures forall k :: 0 <= k < m - 2 ==> !stop(p, |games| + 1 + k + 1, Answer(p, rest, k))
    ensures stop(p, |games| + 1 + (m - 1), Answer(p, rest, m - 2))
  {
    forall k | 0 <= k < m - 2
      ensures !stop(p, |games| + 1 + k + 1, Answer(p, rest, k))
    {
      assert !stop(p, |games| + (k + 1) + 1, Answer(p, answers, k + 1));
      assert Answer(p, rest, k) == Answer(p, answers, k + 1) by {
        if !p.Query? {
          assert Answer(p, answers, k + 1);
        }
      }
      assert |games| + 1 + k + 1 == |games| + (k + 1) + 1;
    }
    forall k | 0 <= k < m - 1
      ensures rounds[1..][k].outcome.Finished()
    {
      assert rounds[1..][k] == rounds[k + 1];
    }
  }

  /** The same for a whole session: it plays exactly the first `m` rounds
      when they all finish and `stop` holds after round `m` and after no
      earlier one. */
  lemma SessionStopsAt<S(!new), A(!new)>(
    stop: (PlayAgain, nat, bool) -> bool, g: Rules<S, A>, init: S, n: nat, p: PlayAgain,
    rounds: seq<seq<A>>, answers: seq<bool>, m: nat)
    requires 0 < m <= |rounds|
    requires p.Query? ==> m <= |answers|
    requires forall k :: 0 <= k < m ==> RunRound(g, init, n, rounds[k]).outcome.Finished()
    requires forall k :: 0 <= k < m - 1 ==> !stop(p, k + 1, Answer(p, answers, k))
    requires stop(p, m, Answer(p, answers, m - 1))
    ensures var r := RunSession(stop, g, init, n, p, rounds, answers);
      r.end == Stopped && |r.games| == m
  {
    var plays := Plays(g, init, n, rounds);
    ReplayStopsAt(stop, p, plays, answers, [], m);
  }

  /** When `stop` holds after none of the supplied rounds, every one of them
      finishes, and 'query' has an answer for each, the loop never breaks:
      another round is appended after each, and the session records them
      all. */
  lemma SessionRunsOut<S(!new), A(!new)>(
    stop: (PlayAgain, nat, bool) -> bool, g: Rules<S, A>, init: S, n: nat, p: PlayAgain,
    rounds: seq<seq<A>>, answers: seq<bool>)
    requires forall k :: 0 <= k < |rounds| ==> RunRound(g, init, n, rounds[k]).outcome.Finished()
    requires p.Query? ==> |rounds| <= |answers|
    requires forall i :: 0 <= i < |rounds| ==> !stop(p, i + 1, Answer(p, answers, i))
    ensures var r := RunSession(stop, g, init, n, p, rounds, answers);
      r.end == OutOfRounds && r.games == Plays(g, init, n, rounds)
  {
    SessionVerdicts(stop, g, init, n, p, rounds, answers);
  }

  /** As written, a falsy `play_again`, and also any int of 2 or more,
      plays exactly one round: `len(games) < play_again` already holds
      after the first. */
  lemma AsWrittenOneRound<S(!new), A(!new)>(
    g: Rules<S, A>, init: S, n: nat, p: PlayAgain, rounds: seq<seq<A>>, answers: seq<bool>)
    requires Falsy(p) || (p.Count? && p.n >= 2)
    requires |rounds| > 0 && RunRound(g, init, n, rounds[0]).outcome.Finished()
    ensures var r := RunSession(ReplayBreaks, g, init, n, p, rounds, answers);
      r.end == Stopped && |r.games| == 1
  {
    SessionStopsAt(ReplayBreaks, g, init, n, p, rounds, answers, 1);
  }

  /** The count rule as written against the intended one, on the same rounds:
      for `Count(m)` with `m >= 2` and `m` rounds that finish, the written
      condition stops after one round where `m` were asked for. */
  lemma CountDiscrepancy<S(!new), A(!new)>(
    g: Rules<S, A>, init: S, n: nat, rounds: seq<seq<A>>, answers: seq<bool>, m: nat)
    requires 2 <= m <= |rounds|
    requires forall k :: 0 <= k < m ==> RunRound(g, init, n, rounds[k]).outcome.Finished()
    ensures var written := RunSession(ReplayBreaks, g, init, n, Count(m), rounds, answers);
      var intended := RunSession(ReplayBreaksIntended, g, init, n, Count(m), rounds, answers);
      && written.end == Stopped && |written.games| == 1
      && intended.end == Stopped && |intended.games| == m
      && written.games == intended.games[..1]
  {
    AsWrittenOneRound(g, init, n, Count(m), rounds, answers);
    IntendedCountPlaysExactly(g, init, n, rounds, answers, m);
    var plays := Plays(g, init, n, rounds);
    var intended := RunSession(ReplayBreaksIntended, g, init, n, Count(m), rounds, answers);
    assert intended.games[..1] == plays[..m][..1];
  }

  /** As written, `play_again` equal to 1 (or `True`), a negative int, or
      any other truthy value that is not 'query' never breaks the loop: the
      session goes on for as long as rounds are supplied, and plays all of
      them when they all finish. */
  lemma AsWrittenNeverStops<S(!new), A(!new)>(
    g: Rules<S, A>, init: S, n: nat, p: PlayAgain, rounds: seq<seq<A>>, answers: seq<bool>)
    requires p.Other? || (p.Count? && p.n != 0 && p.n <= 1)
    ensures RunSession(ReplayBreaks, g, init, n, p, rounds, answers).end != Stopped
    ensures (forall k :: 0 <= k < |rounds| ==> RunRound(g, init, n, rounds[k]).outcome.Finished()) ==>
      var r := RunSession(ReplayBreaks, g, init, n, p, rounds, answers);
      r.end == OutOfRounds && |r.games| == |rounds|
  {
    SessionVerdicts(ReplayBreaks, g, init, n, p, rounds, answers);
    if forall k :: 0 <= k < |rounds| ==> RunRound(g, init, n, rounds[k]).outcome.Finished() {
      SessionRunsOut(ReplayBreaks, g, init, n, p, rounds, answers);
    }
  }

  /** Under 'query' the session stops after the round whose question is
      answered no, the first such, having played exactly that many rounds. */
  lemma QueryStopsAtFirstNo<S(!new), A(!new)>(
    g: Rules<S, A>, init: S, n: nat, rounds: seq<seq<A>>, answers: seq<bool>, m: nat)
    requires m < |answers| && !answers[m] && forall k :: 0 <= k < m ==> answers[k]
    requires m < |rounds| && forall k :: 0 <= k <= m ==> RunRound(g, init, n, rounds[k]).outcome.Finished()
    ensures var r := RunSession(ReplayBreaks, g, init, n, Query, rounds, answers);
      r.end == Stopped && |r.games| == m + 1
  {
    SessionStopsAt(ReplayBreaks, g, init, n, Query, rounds, answers, m + 1);
  }

  /** `_play_again` contains `yield from`, so calling it returns a generator
      object, which is always truthy: every answer the loop sees is yes, and
      then 'query' never breaks the loop, and with a yes for every round
      that finishes, every supplied round is played. */
  lemma QueryAlwaysYesNeverStops<S(!new), A(!new)>(
    g: Rules<S, A>, init: S, n: nat, rounds: seq<seq<A>>, answers: seq<bool>)
    requires forall k :: 0 <= k < |answers| ==> answers[k]
    ensures RunSession(ReplayBreaks, g, init, n, Query, rounds, answers).end != Stopped
    ensures |rounds| <= |answers| && (forall k :: 0 <= k < |rounds| ==> RunRound(g, init, n, rounds[k]).outcome.Finished()) ==>
      var r := RunSession(ReplayBreaks, g, init, n, Query, rounds, answers);
      r.end == OutOfRounds && |r.games| == |rounds|
  {
    SessionVerdicts(ReplayBreaks, g, init, n, Query, rounds, answers);
    if |rounds| <= |answers| && forall k :: 0 <= k < |rounds| ==> RunRound(g, init, n, rounds[k]).outcome.Finished() {
      SessionRunsOut(ReplayBreaks, g, init, n, Query, rounds, answers);
    }
  }

  /** With the count test the right way round, `Count(m)` for `m >= 1` plays
      exactly `m` rounds, provided they finish. */
  lemma IntendedCountPlaysExactly<S(!new), A(!new)>(
    g: Rules<S, A>, init: S, n: nat, rounds: seq<seq<A>>, answers: seq<bool>, m: nat)
    requires 0 < m <= |rounds|
    requires forall k :: 0 <= k < m ==> RunRound(g, init, n, rounds[k]).outcome.Finished()
    ensures var r := RunSession(ReplayBreaksIntended, g, init, n, Count(m), rounds, answers);
      r.end == Stopped && |r.games| == m
  {
    SessionStopsAt(ReplayBreaksIntended, g, init, n, Count(m), rounds, answers, m);
  }
}
