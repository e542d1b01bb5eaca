/**
 The automaton descriptions that the visualizer script passes around as
 dictionaries, written as typed records. States and symbols are strings, as
 in the script; the epsilon symbol is the one-character string "λ".
 */
module Automaton {

  type State = string
  type Symbol = string

  /** The label of an epsilon (empty-string) transition. */
  const Lambda: Symbol := "λ"

  /** The outcome of a dictionary lookup: a missing key is `None`. */
  datatype Option<T> = None | Some(value: T)

  /**
   A deterministic automaton. `transitions` is partial: a missing
   (state, symbol) key means "no transition".
   */
  datatype Dfa = Dfa(
    states: seq<State>,
    alphabet: seq<Symbol>,
    transitions: map<(State, Symbol), State>,
    startState: State,
    acceptStates: seq<State>)

  /**
   A nondeterministic automaton, possibly with epsilon transitions: every
   present (state, symbol) key maps to the list of next states.
   */
  datatype Nfa = Nfa(
    states: seq<State>,
    alphabet: seq<Symbol>,
    transitions: map<(State, Symbol), seq<State>>,
    startState: State,
    acceptStates: seq<State>)
}
