/**
 * The Redux counter reducer (src/reducers/counter.js): a three-way switch on
 * the action's type over an integer state. JavaScript numbers are modelled
 * as integers.
 */
module Counter {
  import opened Wrappers

  /** A dispatched action: its `type` string and its `payload`. */
  datatype Action = Action(kind: string, payload: int)

  /** The action that adds its payload. */
  function Increment(payload: int): Action { Action("INCREMENT", payload) }

  /** The action that subtracts one (its payload is ignored). */
  function Decrement(payload: int): Action { Action("DECREMENT", payload) }

  /**
   * `counterReducer(state = 0, action)`: an absent state (`undefined`, as
   * Redux passes on its first call) defaults to 0.
   */
  function CounterReducer(state: Option<int>, action: Action): int {
    var current := state.GetOr(0);
    if action.kind == "INCREMENT" then current + action.payload
    else if action.kind == "DECREMENT" then current - 1
    else current
  }

  /** How far one action moves the counter, independently of the state. */
  function Delta(action: Action): int {
    if action.kind == "INCREMENT" then action.payload
    else if action.kind == "DECREMENT" then -1
    else 0
  }

  /** The reducer moves every state by the same amount for a given action. */
  lemma ReducerIsTranslation(state: int, action: Action)
    ensures CounterReducer(Some(state), action) == state + Delta(action)
  {
  }

  /** INCREMENT adds the payload. */
  lemma IncrementAddsPayload(state: int, payload: int)
    ensures CounterReducer(Some(state), Increment(payload)) == state + payload
  {
  }

  /** DECREMENT subtracts one whatever its payload. */
  lemma DecrementIgnoresPayload(state: int, p: int, q: int)
    ensures CounterReducer(Some(state), Decrement(p)) == state - 1
    ensures CounterReducer(Some(state), Decrement(p)) == CounterReducer(Some(state), Decrement(q))
  {
  }

  /** Any other action type returns the state unchanged. */
  lemma OtherActionKeepsState(state: int, action: Action)
    requires action.kind != "INCREMENT" && action.kind != "DECREMENT"
    ensures CounterReducer(Some(state), action) == state
  {
  }

  /** An absent state behaves as 0. */
  lemma AbsentStateIsZero(action: Action)
    ensures CounterReducer(None, action) == CounterReducer(Some(0), action)
  {
  }

  /** INCREMENT by 1 followed by DECREMENT returns the original state. */
  lemma IncrementThenDecrementRestores(state: Option<int>, p: int)
    ensures CounterReducer(Some(CounterReducer(state, Increment(1))), Decrement(p)) == state.GetOr(0)
  {
  }

  /** The state a store reaches by dispatching `actions` in order, from `state`. */
  function Replay(state: int, actions: seq<Action>): int
    decreases |actions|
  {
    if actions == [] then state
    else Replay(CounterReducer(Some(state), actions[0]), actions[1..])
  }

  /** The total movement of a sequence of actions. */
  function NetDelta(actions: seq<Action>): int
    decreases |actions|
  {
    if actions == [] then 0 else Delta(actions[0]) + NetDelta(actions[1..])
  }

  /**
   * Dispatching a sequence of actions moves the counter by the sum of their
   * payload-or-minus-one deltas, whatever the starting state.
   */
  lemma {:induction false} ReplayAddsNetDelta(state: int, actions: seq<Action>)
    ensures Replay(state, actions) == state + NetDelta(actions)
    decreases |actions|
  {
    if actions != [] {
      ReducerIsTranslation(state, actions[0]);
      ReplayAddsNetDelta(CounterReducer(Some(state), actions[0]), actions[1..]);
    }
  }
}
