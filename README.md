# Epsilon closures and DFA path simulation, verified in Dafny

The visualizer script draws DFA, NFA and epsilon-NFA diagrams, and shows the
path a DFA takes on an input string. Most of it hands automaton data to a graph
drawing library. This project models the two parts that contain an algorithm:

- **Epsilon-closure computation** (`calculate_epsilon_closures`). For every
  declared state of an NFA, a depth-first search runs with an explicit stack and
  a visited set. It follows only transitions labelled `λ`. The model is the
  imperative method `EpsilonClosure.ClosureOf` (the inner `while stack:` loop)
  and `EpsilonClosure.CalculateEpsilonClosures` (the outer loop that fills the
  table). Each closure is proved to be exactly the set of states reachable from
  its state by a finite epsilon path. It contains its own state, is closed under
  epsilon transitions, and is the least set that does both. The search ends even
  when epsilon transitions form cycles: the decreasing measure is the unvisited
  part of the search space, then the stack length.
- **DFA path simulation** (the first part of `visualize_dfa_path`). The run
  starts at the start state and reads the string character by character. It
  stops at the first missing transition and records every state reached. The
  string is accepted only if it was read to the end and the last state is
  accepting. The model is the method `DfaPath.SimulatePath`. It is proved equal
  to a reference function `DfaPath.Trace`, and to any sequence with the
  step-by-step shape of a run (`DfaPath.IsTrace`). Two small pure functions model
  the diagram's colouring tests: which transition edges are highlighted
  (`(state, symbol) in zip(path, s)`), and which node gets the green or red
  verdict fill (`state == path[-1]`).

The automata of the script's demonstration driver are in module `Demo`. For the
epsilon-NFA, the closures are q0 ↦ {q0, q1, q3}, and q1, q2, q3 each close to
themselves. The DFA is the binary-mod-3 automaton. It is proved to end, on every
binary string, in the state for the numeral's value modulo 3. Its runs on
"1000101" (69, ends in q0, rejected) and "0010111" (23, ends in q2, accepted)
both have 8 states.

Files: `automaton.dfy` (state and symbol types, `Option`, the `Dfa` and `Nfa`
records), `epsilon_closure.dfy`, `dfa_path.dfy`, `demo.dfy`.

Two behaviours of the code are worth stating outright, and the model keeps both:

- The path has len(string) + 1 states only when every character has a
  transition. The loop stops at the first missing transition, so otherwise the
  path is shorter: it ends with the state that had no move.
- Malformed automata are not rejected. Nothing checks for undeclared target
  states or for a start state outside the state list, and the model adds no such
  check and no precondition for it either. Epsilon targets that are not declared
  states simply join the closure. The termination measure ranges over the
  targets that occur in the table, so no well-formedness assumption is needed.

Symbols in a DFA's transition table are strings, and the input string is read one
character at a time. A lookup is therefore keyed by `(state, [c])`, as in Python,
where iterating over a `str` yields one-character strings.

## Model

| member | source | states |
|---|---|---|
| `EpsilonClosure.ClosureOf` | visualizer.py:144-154 | the search from one state ends, its own state is in the result, the result is closed under epsilon transitions, and it holds exactly the states reachable by an epsilon path |
| `EpsilonClosure.CalculateEpsilonClosures` | visualizer.py:140-156 | the table has exactly the declared states as keys, and each entry is reflexive, closed under epsilon transitions and equal to the set of epsilon-reachable states; the entry of any declared member of a closure lies inside that closure (recomputing from a member adds nothing) |
| `EpsilonClosure.LambdaSucc` | visualizer.py:153 | the epsilon successors of a state are its `λ` entry when there is one and the empty list otherwise |
| `EpsilonClosure.LambdaTargets` | visualizer.py:153-154 | every epsilon successor of every state, with a missing epsilon entry contributing nothing, lies in one finite set (the search space) |
| `EpsilonClosure.SearchInvInit` | visualizer.py:145-146 | the search starts with an empty visited set and the state on the stack, and its invariant holds there |
| `EpsilonClosure.SearchInvSkip` | visualizer.py:148-150 | popping an already visited state keeps the invariant (visited states are never re-expanded) |
| `EpsilonClosure.SearchInvVisit` | visualizer.py:148-154 | visiting a new state and pushing its epsilon successors keeps the invariant: everything visited or pending is reachable, and every successor of a visited state is visited or pending; the unvisited part of the search space shrinks |
| `EpsilonClosure.SearchInvDone` | visualizer.py:147-156 | with the stack empty, the visited set contains the state, is closed under epsilon transitions and equals the reachable set |
| `EpsilonClosure.ReachableRefl` | visualizer.py:146-152 | every state reaches itself (a closure is reflexive) |
| `EpsilonClosure.ReachableStep` | visualizer.py:153-154 | a state pushed as an epsilon successor of a reachable state is reachable |
| `EpsilonClosure.ClosedHoldsPathEnd` | visualizer.py:147-154 | a set closed under epsilon transitions that holds the start of an epsilon path holds its end |
| `EpsilonClosure.ClosedContainsReachable` | visualizer.py:147-154 | minimality: any closed set containing the state contains every state reachable from it |
| `EpsilonClosure.ReachableTransitive` | visualizer.py:147-154 | reachability is transitive, so recomputing a closure from one of its members adds nothing (idempotence) |
| `DfaPath.Lookup` | visualizer.py:63-64 | the lookup is `None` exactly when the key (state, one-character string) is missing, and otherwise the table's entry |
| `DfaPath.Trace` | visualizer.py:60-68 | the reference run starts at its state and has between 1 and len(s) + 1 states |
| `DfaPath.TraceIsTrace` | visualizer.py:60-68 | the reference run follows the transition table step by step, and when it is shorter than len(s) + 1 the next character has no transition |
| `DfaPath.TraceUnique` | visualizer.py:60-68 | any sequence with that step-by-step shape is the reference run: the run is determined by the DFA and the string |
| `DfaPath.TraceDetermined` | visualizer.py:60-68 | every sequence with the shape of a run equals the reference run |
| `DfaPath.Accepts` | visualizer.py:70 | a string is accepted iff the run has read all of it and ends in an accepting state |
| `DfaPath.SimulatePath` | visualizer.py:57-70 | the path starts at the start state, follows the table, and stops exactly at the first missing transition; accepted iff the whole string was read and the last state is accepting; the empty string gives [start] and is accepted iff the start state is accepting |
| `DfaPath.Zip` | visualizer.py:96-97 | the pairs of `zip(path, s)`: as many as the shorter of the two, the i-th pairing path[i] with the i-th character |
| `DfaPath.EdgeHighlighted` | visualizer.py:96-97 | an edge key is highlighted iff it equals (path[i], s[i]) for some i below both lengths |
| `DfaPath.VerdictColor` | visualizer.py:71 | the verdict colour is green iff the string is accepted, red otherwise, never black |
| `DfaPath.EdgeColor` | visualizer.py:96-97 | an edge is coloured iff it is highlighted, green iff highlighted and the string accepted |
| `DfaPath.NodeFill` | visualizer.py:84-90 | only the last state of the path gets the verdict fill, green iff the string is accepted (the start node's light blue fill is not modelled) |
| `DfaPath.HighlightMarksTakenEdges` | visualizer.py:96-97 | for a key of the transition table, its edge is highlighted iff the run took that transition; the pair where a run stops has no transition and colours no edge |
| `DfaPath.FillShowsVerdict` | visualizer.py:70-88 | the filled node is the state the run ended in, and it is green iff the whole string was read and that state accepts |
| `Demo.DemoENfaWellFormed` | visualizer.py:239-250 | `DemoENfa` (the driver's epsilon-NFA) has a declared start state, only declared states in its transitions, and epsilon moves only from q0, to q1 and q3 |
| `Demo.DemoDfaComplete` | visualizer.py:201-214 | `DemoDfa` (the driver's DFA) has a declared start state, a transition for every declared state and symbol, and only declared states in its transitions |
| `Demo.NoLambdaClosesToItself` | visualizer.py:153-154 | a state without epsilon successors (no `λ` entry, or an empty list) closes to itself alone |
| `Demo.DemoClosureOfQ0` | visualizer.py:239-253 | in the demo epsilon-NFA, exactly q0, q1 and q3 are reachable from q0 |
| `Demo.DemoClosureTable` | visualizer.py:239-254 | any table keyed by the demo's declared states and holding their epsilon-reachable sets is q0 ↦ {q0, q1, q3}, q1 ↦ {q1}, q2 ↦ {q2}, q3 ↦ {q3} |
| `Demo.DemoEpsilonClosures` | visualizer.py:239-254 | the closure table computed for the demo epsilon-NFA is q0 ↦ {q0, q1, q3}, q1 ↦ {q1}, q2 ↦ {q2}, q3 ↦ {q3} |
| `Demo.DemoStep` | visualizer.py:201-214 | each step of the demo DFA on a bit maps remainder r to (2r + bit) mod 3 |
| `Demo.DemoRunCountsMod3` | visualizer.py:201-214 | on a binary string the demo DFA never gets stuck and ends in the state for the numeral's value modulo 3 |
| `Demo.DemoAcceptsTwoModThree` | visualizer.py:201-214 | the demo DFA accepts a binary numeral iff its value is 2 modulo 3 |
| `Demo.DemoRun1000101` | visualizer.py:259-261 | the run on "1000101" has 8 states, ends in q0 and is rejected |
| `Demo.DemoRun0010111` | visualizer.py:264-266 | the run on "0010111" has 8 states, ends in q2 and is accepted |
| `Demo.DemoPaths` | visualizer.py:259-266 | the simulation loop gives those two paths and verdicts |

## Left out

- Graphviz: every `gv.Digraph`, `node`, `edge` and `render` call and all styling attributes (shapes, fonts, the light-blue start node). They belong to an external drawing library. Only the colour decisions of the path view are modelled, as pure functions.
- NodeFill: models only the green or red verdict fill of the path's last node (visualizer.py:86-88), not the light blue fill the start node is drawn with first (visualizer.py:80-81). That fill is a styling attribute that the node's later drawing call may override, and deciding which one wins belongs to the drawing library.
- `visualize_dfa`, `visualize_nfa` and `visualize_e_nfa`: they only turn dictionary entries into drawing calls. Relabelling `λ` as `ε` is cosmetic.
- The demonstration driver's file output and `print`. Its automata are used as concrete data in `Demo`.
- Python dictionary and set iteration order: closures are Dafny sets and the table is a map, so results are compared as sets.
- Mutation of the input: automata are Dafny values, so the closure computation cannot change the NFA. The script stores the table in the NFA dictionary afterwards; that happens in the driver and is not modelled.
