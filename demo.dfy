/**
 The example automata of the script's demonstration driver, with the results
 the driver prints for them established as facts about the model.
 */
module Demo {
  import opened Automaton
  import opened EpsilonClosure
  import opened DfaPath

  /** The epsilon-NFA of the driver: q0 has epsilon moves to q1 and q3. */
  function DemoENfa(): Nfa
  {
    Nfa(
      ["q0", "q1", "q2", "q3"],
      ["a", "b"],
      map[("q0", Lambda) := ["q1", "q3"],
          ("q1", "a") := ["q2"],
          ("q2", "b") := ["q0"],
          ("q3", "b") := ["q2"]],
      "q0",
      ["q2"])
  }

  /** The DFA of the driver: it tracks the value of a binary numeral modulo 3. */
  function DemoDfa(): Dfa
  {
    Dfa(
      ["q0", "q1", "q2"],
      ["0", "1"],
      map[("q0", "0") := "q0",
          ("q0", "1") := "q1",
          ("q1", "0") := "q2",
          ("q1", "1") := "q0",
          ("q2", "0") := "q1",
          ("q2", "1") := "q2"],
      "q0",
      ["q2"])
  }

  /**
   The demo epsilon-NFA is well formed: its start state is declared, every
   transition leaves and enters declared states, and q0 is the only state with
   epsilon moves.
   */
  lemma DemoENfaWellFormed()
    ensures var a := DemoENfa();
      && a.startState in a.states
      && (forall k :: k in a.transitions ==> k.0 in a.states)
      && (forall k, u :: k in a.transitions && u in a.transitions[k] ==> u in a.states)
      && LambdaSucc(a.transitions, "q0") == ["q1", "q3"]
      && (forall q :: q in a.states && q != "q0" ==> LambdaSucc(a.transitions, q) == [])
  {
  }

  /**
   The demo DFA is complete over its alphabet: every declared state has a
   transition on every symbol, and every transition stays among the declared
   states.
   */
  lemma DemoDfaComplete()
    ensures var a := DemoDfa();
      && a.startState in a.states
      && (forall q, x :: q in a.states && x in a.alphabet ==> (q, x) in a.transitions)
      && (forall k :: k in a.transitions ==> k.0 in a.states && a.transitions[k] in a.states)
  {
  }

  /** A state without epsilon successors (no entry, or an empty list) closes to itself alone. */
  lemma NoLambdaClosesToItself(trans: Table, q: State)
    requires LambdaSucc(trans, q) == []
    ensures forall t :: Reachable(trans, q, t) <==> t == q
  {
    assert LambdaClosed(trans, {q});
    ReachableRefl(trans, q);
    forall t | Reachable(trans, q, t)
      ensures t == q
    {
      ClosedContainsReachable(trans, {q}, q, t);
    }
  }

  /** The closure of q0 in the demo epsilon-NFA is {q0, q1, q3}. */
  lemma DemoClosureOfQ0()
    ensures forall t :: Reachable(DemoENfa().transitions, "q0", t) <==> t in {"q0", "q1", "q3"}
  {
    var trans := DemoENfa().transitions;
    var s: set<State> := {"q0", "q1", "q3"};
    assert LambdaSucc(trans, "q0") == ["q1", "q3"];
    assert LambdaSucc(trans, "q1") == [];
    assert LambdaSucc(trans, "q3") == [];
    assert LambdaClosed(trans, s);
    ReachableRefl(trans, "q0");
    ReachableStep(trans, "q0", "q0", "q1");
    ReachableStep(trans, "q0", "q0", "q3");
    forall t | Reachable(trans, "q0", t)
      ensures t in s
    {
      ClosedContainsReachable(trans, s, "q0", t);
    }
  }

  /**
   Any table that has the declared states of the demo epsilon-NFA as keys and
   maps each to its epsilon-reachable states is the table the driver prints.
   */
  lemma DemoClosureTable(c: map<State, set<State>>)
    requires forall q :: q in c <==> q in DemoENfa().states
    requires forall q, t :: q in c ==> (t in c[q] <==> Reachable(DemoENfa().transitions, q, t))
    ensures c == map["q0" := {"q0", "q1", "q3"}, "q1" := {"q1"}, "q2" := {"q2"}, "q3" := {"q3"}]
  {
    var trans := DemoENfa().transitions;
    DemoENfaWellFormed();
    DemoClosureOfQ0();
    NoLambdaClosesToItself(trans, "q1");
    NoLambdaClosesToItself(trans, "q2");
    NoLambdaClosesToItself(trans, "q3");
    assert c.Keys == {"q0", "q1", "q2", "q3"};
    assert c["q0"] == {"q0", "q1", "q3"};
    assert c["q1"] == {"q1"};
    assert c["q2"] == {"q2"};
    assert c["q3"] == {"q3"};
  }

  /** The closure table computed for the demo epsilon-NFA. */
  method DemoEpsilonClosures() returns (closures: map<State, set<State>>)
    ensures closures == map["q0" := {"q0", "q1", "q3"}, "q1" := {"q1"}, "q2" := {"q2"}, "q3" := {"q3"}]
  {
    closures := CalculateEpsilonClosures(DemoENfa());
    DemoClosureTable(closures);
  }

  predicate IsBinary(s: string)
  {
    forall i :: 0 <= i < |s| ==> s[i] == '0' || s[i] == '1'
  }

  function Bit(c: char): nat
  {
    if c == '1' then 1 else 0
  }

  /** The value of the binary numeral `s` read after a prefix worth `acc`. */
  function BinaryValue(acc: nat, s: string): nat
    decreases |s|
  {
    if s == [] then acc else BinaryValue(2 * acc + Bit(s[0]), s[1..])
  }

  /** The demo state standing for a remainder modulo 3. */
  function Mod3State(r: nat): State
  {
    if r % 3 == 0 then "q0" else if r % 3 == 1 then "q1" else "q2"
  }

  /** One step of the demo DFA from remainder r on bit c leads to remainder (2r + c) mod 3. */
  lemma DemoStep(acc: nat, c: char)
    requires c == '0' || c == '1'
    ensures Lookup(DemoDfa(), Mod3State(acc), c) == Some(Mod3State(2 * acc + Bit(c)))
  {
    var k := acc / 3;
    assert 2 * acc + Bit(c) == 3 * (2 * k) + (2 * (acc % 3) + Bit(c));
  }

  /**
   On a binary string, the demo DFA never gets stuck, and it ends in the state
   for the numeral's value modulo 3.
   */
  lemma {:induction false} DemoRunCountsMod3(acc: nat, s: string)
    requires IsBinary(s)
    ensures var p := Trace(DemoDfa(), Mod3State(acc), s);
      |p| == |s| + 1 && p[|p| - 1] == Mod3State(BinaryValue(acc, s))
    decreases |s|
  {
    if s != [] {
      var acc' := 2 * acc + Bit(s[0]);
      DemoStep(acc, s[0]);
      assert Trace(DemoDfa(), Mod3State(acc), s)
          == [Mod3State(acc)] + Trace(DemoDfa(), Mod3State(acc'), s[1..]);
      assert IsBinary(s[1..]) by {
        forall i | 0 <= i < |s[1..]|
          ensures s[1..][i] == '0' || s[1..][i] == '1'
        {
          assert s[1..][i] == s[i + 1];
        }
      }
      DemoRunCountsMod3(acc', s[1..]);
    }
  }

  /** The demo DFA accepts a binary numeral exactly when its value is 2 modulo 3. */
  lemma DemoAcceptsTwoModThree(s: string)
    requires IsBinary(s)
    ensures Accepts(DemoDfa(), s) <==> BinaryValue(0, s) % 3 == 2
  {
    DemoRunCountsMod3(0, s);
  }

  /** "1000101" is a binary numeral worth 69. */
  lemma Value1000101()
    ensures IsBinary("1000101") && BinaryValue(0, "1000101") == 69
  {
  }

  /** The driver's run on "1000101" ends in q0 and is rejected. */
  lemma DemoRun1000101()
    ensures var p := Trace(DemoDfa(), "q0", "1000101");
      |p| == 8 && p[7] == "q0" && !Accepts(DemoDfa(), "1000101")
  {
    var p := Trace(DemoDfa(), "q0", "1000101");
    Value1000101();
    assert Mod3State(0) == "q0" && Mod3State(69) == "q0";
    DemoRunCountsMod3(0, "1000101");
    assert |p| == 8 && p[7] == "q0";
  }

  /** "0010111" is a binary numeral worth 23. */
  lemma Value0010111()
    ensures IsBinary("0010111") && BinaryValue(0, "0010111") == 23
  {
  }

  /** The driver's run on "0010111" ends in q2 and is accepted. */
  lemma DemoRun0010111()
    ensures var p := Trace(DemoDfa(), "q0", "0010111");
      |p| == 8 && p[7] == "q2" && Accepts(DemoDfa(), "0010111")
  {
    var p := Trace(DemoDfa(), "q0", "0010111");
    Value0010111();
    assert Mod3State(0) == "q0" && Mod3State(23) == "q2";
    DemoRunCountsMod3(0, "0010111");
    assert |p| == 8 && p[7] == "q2";
  }

  /** The two runs of the driver, computed by the simulation loop. */
  method DemoPaths() returns (path1: seq<State>, accepted1: bool, path2: seq<State>, accepted2: bool)
    ensures |path1| == 8 && path1[7] == "q0" && !accepted1
    ensures |path2| == 8 && path2[7] == "q2" && accepted2
  {
    var dfa := DemoDfa();
    path1, accepted1 := SimulatePath(dfa, "1000101");
    DemoRun1000101();
    path2, accepted2 := SimulatePath(dfa, "0010111");
    DemoRun0010111();
  }
}
