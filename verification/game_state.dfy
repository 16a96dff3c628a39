/** The contract a concrete game satisfies, reduced to what the engine uses:
    a terminal flag, the set of legal actions and a partial, non-destructive
    transition. Concrete games are left abstract: any `Rules` value is one. */
module GameState {
  import opened Wrappers

  datatype Rules<!S, !A(==)> = Rules(
    isTerminal: S -> bool,
    actions: S -> set<A>,
    act: (S, A) -> Option<S>)

  /** The guard concrete games call at the start of `act`: a terminal state
      and an action outside `actions` are refused; otherwise the state
      itself comes back, not a copy with anything changed. */
  function ActionIsValid<S, A(==)>(g: Rules<S, A>, s: S, a: A): (r: Option<S>)
    ensures r.Some? <==> !g.isTerminal(s) && a in g.actions(s)
    ensures r.Some? ==> r.value == s
    ensures g.isTerminal(s) ==> r == None
  {
    if g.isTerminal(s) then None
    else if a !in g.actions(s) then None
    else Some(s)
  }

  /** `act` only ever succeeds where the guard lets the action through. */
  ghost predicate RespectsValidation<S(!new), A(!new)>(g: Rules<S, A>)
  {
    forall s, a :: g.act(s, a).Some? ==> ActionIsValid(g, s, a).Some?
  }

  /** `act` succeeds on every action the guard lets through. */
  ghost predicate ActsOnLegal<S(!new), A(!new)>(g: Rules<S, A>)
  {
    forall s, a :: ActionIsValid(g, s, a).Some? ==> g.act(s, a).Some?
  }

  /** Some action leads from `s` to `t`. */
  ghost predicate ValidTransition<S(!new), A(!new)>(g: Rules<S, A>, s: S, t: S)
  {
    exists a :: g.act(s, a) == Some(t)
  }

  /** Every consecutive pair of `states` is a transition of `g`. */
  ghost predicate IsChain<S(!new), A(!new)>(g: Rules<S, A>, states: seq<S>)
  {
    forall k :: 0 <= k < |states| - 1 ==> ValidTransition(g, states[k], states[k + 1])
  }

  /** `u` holds every state reachable from inside it. */
  ghost predicate Closed<S(!new), A(!new)>(g: Rules<S, A>, u: set<S>)
  {
    forall s, a :: s in u && g.act(s, a).Some? ==> g.act(s, a).value in u
  }
}
