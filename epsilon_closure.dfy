/**
 Epsilon closures of an NFA: for every declared state, the set of states
 reachable from it by following epsilon transitions only. The computation is a
 depth-first search with an explicit stack and a visited set; it is proved to
 produce exactly the states reachable by a finite epsilon path.
 */
module EpsilonClosure {
  import opened Automaton

  type Table = map<(State, Symbol), seq<State>>

  /** The epsilon successors of `q`; a state without an epsilon entry has none. */
  function LambdaSucc(trans: Table, q: State): (r: seq<State>)
    ensures (q, Lambda) !in trans ==> r == []
    ensures (q, Lambda) in trans ==> r == trans[(q, Lambda)]
  {
    if (q, Lambda) in trans then trans[(q, Lambda)] else []
  }

  /** Every state that is the target of some epsilon transition in the table. */
  function LambdaTargets(trans: Table): (ts: set<State>)
    ensures forall q, u :: u in LambdaSucc(trans, q) ==> u in ts
  {
    set k, u | k in trans && k.1 == Lambda && u in trans[k] :: u
  }

  /** `p` is a non-empty walk that only follows epsilon transitions. */
  ghost predicate IsLambdaPath(trans: Table, p: seq<State>)
  {
    |p| >= 1 &&
    forall i :: 0 <= i < |p| - 1 ==> p[i + 1] in LambdaSucc(trans, p[i])
  }

  /** `t` is reachable from `q` by zero or more epsilon transitions. */
  ghost predicate Reachable(trans: Table, q: State, t: State)
  {
    exists p :: IsLambdaPath(trans, p) && p[0] == q && p[|p| - 1] == t
  }

  /** No epsilon transition leaves the set `s`. */
  ghost predicate LambdaClosed(trans: Table, s: set<State>)
  {
    forall t, u :: t in s && u in LambdaSucc(trans, t) ==> u in s
  }

  /** Every state reaches itself by the empty epsilon path. */
  lemma ReachableRefl(trans: Table, q: State)
    ensures Reachable(trans, q, q)
  {
    assert IsLambdaPath(trans, [q]);
  }

  /** Reachability extends by one epsilon transition. */
  lemma ReachableStep(trans: Table, q: State, t: State, u: State)
    requires Reachable(trans, q, t)
    requires u in LambdaSucc(trans, t)
    ensures Reachable(trans, q, u)
  {
    var p :| IsLambdaPath(trans, p) && p[0] == q && p[|p| - 1] == t;
    var p' := p + [u];
    assert IsLambdaPath(trans, p');
  }

  /**
   A closed set holding the first state of an epsilon path holds its last
   state as well.
   */
  lemma {:induction false} ClosedHoldsPathEnd(trans: Table, s: set<State>, p: seq<State>)
    requires LambdaClosed(trans, s)
    requires IsLambdaPath(trans, p) && p[0] in s
    ensures p[|p| - 1] in s
  {
    if |p| > 1 {
      assert p[1] in s;
      var rest := p[1..];
      assert IsLambdaPath(trans, rest) by {
        forall i | 0 <= i < |rest| - 1
          ensures rest[i + 1] in LambdaSucc(trans, rest[i])
        {
          assert rest[i] == p[i + 1] && rest[i + 1] == p[i + 2];
        }
      }
      ClosedHoldsPathEnd(trans, s, rest);
    }
  }

  /**
   Minimality: every set that contains `q` and is closed under epsilon
   transitions contains everything reachable from `q`.
   */
  lemma ClosedContainsReachable(trans: Table, s: set<State>, q: State, t: State)
    requires LambdaClosed(trans, s) && q in s
    requires Reachable(trans, q, t)
    ensures t in s
  {
    var p :| IsLambdaPath(trans, p) && p[0] == q && p[|p| - 1] == t;
    ClosedHoldsPathEnd(trans, s, p);
  }

  /**
   Reachability is transitive, so the closure of a member of a closure lies
   inside it: recomputing a closure from its own members adds nothing.
   */
  lemma ReachableTransitive(trans: Table, q: State, t: State, u: State)
    requires Reachable(trans, q, t) && Reachable(trans, t, u)
    ensures Reachable(trans, q, u)
  {
    var p1 :| IsLambdaPath(trans, p1) && p1[0] == q && p1[|p1| - 1] == t;
    var p2 :| IsLambdaPath(trans, p2) && p2[0] == t && p2[|p2| - 1] == u;
    var p := p1 + p2[1..];
    forall i | 0 <= i < |p| - 1
      ensures p[i + 1] in LambdaSucc(trans, p[i])
    {
      if i < |p1| - 1 {
        assert p[i] == p1[i] && p[i + 1] == p1[i + 1];
      } else {
        var j := i - (|p1| - 1);
        assert p[i] == p2[j] && p[i + 1] == p2[j + 1];
      }
    }
    assert IsLambdaPath(trans, p);
  }

  /** The states a search from `state` can ever meet. */
  function SearchSpace(trans: Table, state: State): set<State>
  {
    {state} + LambdaTargets(trans)
  }

  /**
   The invariant of the search from `state`: everything visited or still on
   the stack lies in the search space and is reachable from `state`; `state`
   itself is visited or pending; and every epsilon successor of a visited
   state is visited or pending.
   */
  ghost predicate SearchInv(trans: Table, state: State, visited: set<State>, stack: seq<State>)
  {
    && visited <= SearchSpace(trans, state)
    && (forall x :: x in stack ==> x in SearchSpace(trans, state))
    && (state in visited || state in stack)
    && (forall t, u :: t in visited && u in LambdaSucc(trans, t) ==> u in visited || u in stack)
    && (forall t :: t in visited ==> Reachable(trans, state, t))
    && (forall x :: x in stack ==> Reachable(trans, state, x))
  }

  /** The search starts with nothing visited and `state` on the stack. */
  lemma SearchInvInit(trans: Table, state: State)
    ensures SearchInv(trans, state, {}, [state])
  {
    ReachableRefl(trans, state);
  }

  /** Popping a state that was already visited keeps the invariant. */
  lemma SearchInvSkip(trans: Table, state: State, visited: set<State>, rest: seq<State>, current: State)
    requires SearchInv(trans, state, visited, rest + [current])
    requires current in visited
    ensures SearchInv(trans, state, visited, rest)
  {
    forall t, u | t in visited && u in LambdaSucc(trans, t)
      ensures u in visited || u in rest
    {
      assert u in visited || u in rest + [current];
    }
  }

  /**
   Visiting a popped state that was not visited yet and pushing its epsilon
   successors keeps the invariant; the state lies in the search space, so the
   unvisited part of the search space shrinks.
   */
  lemma SearchInvVisit(trans: Table, state: State, visited: set<State>, rest: seq<State>, current: State)
    requires SearchInv(trans, state, visited, rest + [current])
    requires current !in visited
    ensures current in SearchSpace(trans, state)
    ensures SearchInv(trans, state, visited + {current}, rest + LambdaSucc(trans, current))
  {
    var visited', stack' := visited + {current}, rest + LambdaSucc(trans, current);
    assert current in rest + [current];
    forall x | x in stack'
      ensures x in SearchSpace(trans, state) && Reachable(trans, state, x)
    {
      if x in rest {
        assert x in rest + [current];
      } else {
        ReachableStep(trans, state, current, x);
      }
    }
    forall t, u | t in visited' && u in LambdaSucc(trans, t)
      ensures u in visited' || u in stack'
    {
      if t != current {
        assert u in visited || u in rest + [current];
      }
    }
    assert state in visited || state in rest + [current];
  }

  /** When the stack is empty, the visited set is exactly the epsilon closure. */
  lemma SearchInvDone(trans: Table, state: State, visited: set<State>)
    requires SearchInv(trans, state, visited, [])
    ensures state in visited
    ensures LambdaClosed(trans, visited)
    ensures forall t :: t in visited <==> Reachable(trans, state, t)
  {
    forall t | Reachable(trans, state, t)
      ensures t in visited
    {
      ClosedContainsReachable(trans, visited, state, t);
    }
  }

  /**
   The search from one state (the body of the outer loop of the script's
   closure computation): pop a state, skip it if already visited, otherwise
   mark it visited, add it to the closure and push its epsilon successors.
   The search ends even when epsilon transitions form cycles, and its result
   is exactly the set of states epsilon-reachable from `state`.
   */
  method ClosureOf(trans: Table, state: State) returns (closure: set<State>)
    ensures state in closure
    ensures LambdaClosed(trans, closure)
    ensures forall t :: t in closure <==> Reachable(trans, state, t)
  {
    closure := {};
    var visited: set<State> := {};
    var stack := [state];
    SearchInvInit(trans, state);
    while stack != []
      invariant closure == visited
      invariant SearchInv(trans, state, visited, stack)
      decreases SearchSpace(trans, state) - visited, |stack|
    {
      var current := stack[|stack| - 1];
      ghost var before := stack;
      stack := stack[..|stack| - 1];
      assert before == stack + [current];
      if current in visited {
        SearchInvSkip(trans, state, visited, stack, current);
        continue;
      }
      SearchInvVisit(trans, state, visited, stack, current);
      visited := visited + {current};
      closure := closure + {current};
      ghost var rest := stack;
      var next := LambdaSucc(trans, current);
      for j := 0 to |next|
        invariant stack == rest + next[..j]
      {
        assert next[..j + 1] == next[..j] + [next[j]];
        stack := stack + [next[j]];
      }
      assert next[..|next|] == next;
    }
    SearchInvDone(trans, state, visited);
  }

  /**
   The closure table of an NFA: one entry per declared state, holding exactly
   the states epsilon-reachable from it. The NFA itself is a value and is left
   as it was.
   */
  method CalculateEpsilonClosures(nfa: Nfa) returns (closures: map<State, set<State>>)
    ensures forall q :: q in closures <==> q in nfa.states
    ensures forall q :: q in closures ==> q in closures[q]
    ensures forall q :: q in closures ==> LambdaClosed(nfa.transitions, closures[q])
    ensures forall q, t :: q in closures ==> (t in closures[q] <==> Reachable(nfa.transitions, q, t))
    ensures forall q, t :: q in closures && t in closures[q] && t in closures ==> closures[t] <= closures[q]
  {
    closures := map[];
    for i := 0 to |nfa.states|
      invariant forall q :: q in closures <==> q in nfa.states[..i]
      invariant forall q :: q in closures ==> q in closures[q]
      invariant forall q :: q in closures ==> LambdaClosed(nfa.transitions, closures[q])
      invariant forall q, t :: q in closures ==> (t in closures[q] <==> Reachable(nfa.transitions, q, t))
    {
      var state := nfa.states[i];
      var closure := ClosureOf(nfa.transitions, state);
      closures := closures[state := closure];
    }
    forall q, t, u | q in closures && t in closures[q] && t in closures && u in closures[t]
      ensures u in closures[q]
    {
      ReachableTransitive(nfa.transitions, q, t, u);
    }
  }
}
