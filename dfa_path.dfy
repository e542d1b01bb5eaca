/**
 Running a DFA on an input string, as the path visualizer does before it draws
 anything: the states visited, whether the string is accepted, and which node
 and which edges of the diagram are coloured to show that run.
 */
module DfaPath {
  import opened Automaton

  /**
   The transition taken from `q` on the input character `c`. Iterating over a
   string yields one-character strings, so the key is (q, [c]); a missing key
   gives `None`.
   */
  function Lookup(dfa: Dfa, q: State, c: char): (r: Option<State>)
    ensures r == None <==> (q, [c]) !in dfa.transitions
    ensures r.Some? ==> (q, [c]) in dfa.transitions && dfa.transitions[(q, [c])] == r.value
  {
    if (q, [c]) in dfa.transitions then Some(dfa.transitions[(q, [c])]) else None
  }

  /**
   Reference definition of the run: the states visited from `q` on `s`,
   stopping before the first character that has no transition.
   */
  function Trace(dfa: Dfa, q: State, s: string): (p: seq<State>)
    ensures 1 <= |p| <= |s| + 1 && p[0] == q
    decreases |s|
  {
    if s == [] then [q]
    else match Lookup(dfa, q, s[0])
      case None => [q]
      case Some(n) => [q] + Trace(dfa, n, s[1..])
  }

  /**
   `p` is a run of `dfa` on `s` from `q`: it starts at `q`, each step follows
   the transition on the next character, and if it stops early the next
   character has no transition.
   */
  ghost predicate IsTrace(dfa: Dfa, q: State, s: string, p: seq<State>)
  {
    && 1 <= |p| <= |s| + 1
    && p[0] == q
    && (forall i :: 0 <= i < |p| - 1 ==> Lookup(dfa, p[i], s[i]) == Some(p[i + 1]))
    && (|p| <= |s| ==> Lookup(dfa, p[|p| - 1], s[|p| - 1]) == None)
  }

  /**
   The string is accepted: the run read it to the end and ended in an
   accepting state. Reaching an accepting state earlier does not count, and a
   run that stopped at a missing transition rejects.
   */
  predicate Accepts(dfa: Dfa, s: string): (b: bool)
    ensures b <==> exists p :: IsTrace(dfa, dfa.startState, s, p) && |p| == |s| + 1 && p[|p| - 1] in dfa.acceptStates
  {
    var p := Trace(dfa, dfa.startState, s);
    TraceIsTrace(dfa, dfa.startState, s);
    TraceDetermined(dfa, dfa.startState, s);
    |p| == |s| + 1 && p[|p| - 1] in dfa.acceptStates
  }

  /** The reference run has the step-by-step shape of a run. */
  lemma {:induction false} TraceIsTrace(dfa: Dfa, q: State, s: string)
    ensures IsTrace(dfa, q, s, Trace(dfa, q, s))
    decreases |s|
  {
    if s != [] {
      match Lookup(dfa, q, s[0])
      case None =>
      case Some(n) =>
        var tail := Trace(dfa, n, s[1..]);
        TraceIsTrace(dfa, n, s[1..]);
        var p := [q] + tail;
        assert p == Trace(dfa, q, s);
        forall i | 0 <= i < |p| - 1
          ensures Lookup(dfa, p[i], s[i]) == Some(p[i + 1])
        {
          if i > 0 {
            assert p[i] == tail[i - 1] && p[i + 1] == tail[i] && s[i] == s[1..][i - 1];
          }
        }
        if |p| <= |s| {
          assert p[|p| - 1] == tail[|tail| - 1] && s[|p| - 1] == s[1..][|tail| - 1];
        }
    }
  }

  /** There is only one run: any sequence shaped like a run is the reference run. */
  lemma {:induction false} TraceUnique(dfa: Dfa, q: State, s: string, p: seq<State>)
    requires IsTrace(dfa, q, s, p)
    ensures p == Trace(dfa, q, s)
    decreases |s|
  {
    if s != [] && |p| > 1 {
      assert Lookup(dfa, q, s[0]) == Some(p[1]);
      var tail := p[1..];
      forall i | 0 <= i < |tail| - 1
        ensures Lookup(dfa, tail[i], s[1..][i]) == Some(tail[i + 1])
      {
        assert tail[i] == p[i + 1] && tail[i + 1] == p[i + 2] && s[1..][i] == s[i + 1];
      }
      if |tail| <= |s[1..]| {
        assert tail[|tail| - 1] == p[|p| - 1] && s[1..][|tail| - 1] == s[|p| - 1];
      }
      assert IsTrace(dfa, p[1], s[1..], tail);
      TraceUnique(dfa, p[1], s[1..], tail);
      assert p == [q] + tail;
    }
  }

  /** Every sequence shaped like a run of `dfa` on `s` from `q` is the reference run. */
  lemma TraceDetermined(dfa: Dfa, q: State, s: string)
    ensures forall p :: IsTrace(dfa, q, s, p) ==> p == Trace(dfa, q, s)
  {
    forall p | IsTrace(dfa, q, s, p)
      ensures p == Trace(dfa, q, s)
    {
      TraceUnique(dfa, q, s, p);
    }
  }

  /**
   The simulation loop of the path visualizer: start at the start state, read
   the string character by character, stop at the first missing transition,
   and record every state reached. Accepted only if the whole string was read
   and the last state is accepting.
   */
  method SimulatePath(dfa: Dfa, s: string) returns (path: seq<State>, accepted: bool)
    ensures IsTrace(dfa, dfa.startState, s, path)
    ensures path == Trace(dfa, dfa.startState, s)
    ensures accepted <==> |path| == |s| + 1 && path[|path| - 1] in dfa.acceptStates
    ensures s == [] ==> path == [dfa.startState] && (accepted <==> dfa.startState in dfa.acceptStates)
  {
    accepted := true;
    var current := dfa.startState;
    path := [current];
    for i := 0 to |s|
      invariant accepted
      invariant |path| == i + 1 && path[0] == dfa.startState && current == path[i]
      invariant forall k :: 0 <= k < i ==> Lookup(dfa, path[k], s[k]) == Some(path[k + 1])
    {
      var next := Lookup(dfa, current, s[i]);
      if next.None? {
        accepted := false;
        break;
      }
      current := next.value;
      path := path + [current];
    }
    assert current == path[|path| - 1];
    accepted := accepted && current in dfa.acceptStates;
    TraceUnique(dfa, dfa.startState, s, path);
  }

  /** The pairs Python's `zip(path, s)` produces: a state with a one-character string. */
  function Zip(path: seq<State>, s: string): (z: seq<(State, Symbol)>)
    ensures |z| == if |path| <= |s| then |path| else |s|
    ensures forall i :: 0 <= i < |z| ==> z[i] == (path[i], [s[i]])
  {
    if path == [] || s == [] then []
    else [(path[0], [s[0]])] + Zip(path[1..], s[1..])
  }

  /**
   Whether the diagram colours the transition drawn for `key`: it does when
   the key is one of the (state, character) pairs of the path and the string.
   */
  function EdgeHighlighted(path: seq<State>, s: string, key: (State, Symbol)): (b: bool)
    ensures b <==> exists i :: 0 <= i < |path| && i < |s| && key == (path[i], [s[i]])
  {
    key in Zip(path, s)
  }

  datatype Color = Green | Red | Black

  /** The verdict colour: green for an accepted string, red otherwise, never black. */
  function VerdictColor(accepted: bool): (c: Color)
    ensures c != Black
    ensures c == Green <==> accepted
  {
    if accepted then Green else Red
  }

  /** The colour of the edge drawn for a transition key. */
  function EdgeColor(path: seq<State>, s: string, accepted: bool, key: (State, Symbol)): (c: Color)
    ensures c != Black <==> EdgeHighlighted(path, s, key)
    ensures c == Green <==> EdgeHighlighted(path, s, key) && accepted
  {
    if EdgeHighlighted(path, s, key) then VerdictColor(accepted) else Black
  }

  /**
   The verdict fill of the node drawn for `state`: only the last state of the
   path gets the green or red verdict fill. (The start node's separate light
   blue fill is a drawing attribute and is not modelled.)
   */
  function NodeFill(path: seq<State>, accepted: bool, state: State): (f: Option<Color>)
    requires |path| > 0
    ensures f.Some? <==> state == path[|path| - 1]
    ensures f == Some(Green) <==> state == path[|path| - 1] && accepted
  {
    if state == path[|path| - 1] then Some(VerdictColor(accepted)) else None
  }

  /**
   For a transition present in the table, its edge is highlighted exactly when
   the run took it. The pair at which a run stops is also in the zip, but it
   has no transition, so no drawn edge is affected by it.
   */
  lemma HighlightMarksTakenEdges(dfa: Dfa, s: string, p: seq<State>, key: (State, Symbol))
    requires IsTrace(dfa, dfa.startState, s, p)
    requires key in dfa.transitions
    ensures EdgeHighlighted(p, s, key) <==>
      exists i :: 0 <= i < |p| - 1 && key == (p[i], [s[i]]) && dfa.transitions[key] == p[i + 1]
  {
    if EdgeHighlighted(p, s, key) {
      var i :| 0 <= i < |p| && i < |s| && key == (p[i], [s[i]]);
      if i == |p| - 1 {
        assert false;
      }
      assert Lookup(dfa, p[i], s[i]) == Some(p[i + 1]);
    }
    if exists i :: 0 <= i < |p| - 1 && key == (p[i], [s[i]]) && dfa.transitions[key] == p[i + 1] {
      var i :| 0 <= i < |p| - 1 && key == (p[i], [s[i]]) && dfa.transitions[key] == p[i + 1];
      assert 0 <= i < |p| && i < |s| && key == (p[i], [s[i]]);
    }
  }

  /**
   The filled node shows the verdict: it is the state the run ended in, and it
   is green exactly when the whole string was read and that state accepts.
   */
  lemma FillShowsVerdict(dfa: Dfa, s: string, state: State)
    ensures var p := Trace(dfa, dfa.startState, s);
      && (NodeFill(p, Accepts(dfa, s), state).Some? <==> state == p[|p| - 1])
      && (NodeFill(p, Accepts(dfa, s), state) == Some(Green) <==>
            state == p[|p| - 1] && |p| == |s| + 1 && state in dfa.acceptStates)
  {
  }
}
