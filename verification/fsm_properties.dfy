/** Properties of whole call sequences on one FSM instance, and a worked
    scenario showing what the methods actually do. */
module FsmProperties {
  import opened FsmConfig
  import opened Fsm

  /** No sequence of calls raises a history flag that was down. */
  lemma {:induction false} RunNeverRaisesHistoryFlags(c: Config, m: Machine, calls: seq<Call>)
    ensures Run(c, m, calls).undoFlag ==> m.undoFlag
    ensures Run(c, m, calls).redoFlag ==> m.redoFlag
    decreases |calls|
  {
    if |calls| > 0 {
      RunNeverRaisesHistoryFlags(c, Apply(c, m, calls[0]).after, calls[1..]);
    }
  }

  /** In every machine reachable from the constructor both flags are down. */
  lemma HistoryFlagsStayDown(c: Config, calls: seq<Call>)
    ensures !Run(c, Start(c), calls).undoFlag
    ensures !Run(c, Start(c), calls).redoFlag
  {
    RunNeverRaisesHistoryFlags(c, Start(c), calls);
  }

  /** Hence `undo()` and `redo()` always return false on a reachable machine
      and change nothing: there is no history navigation at all. */
  lemma UndoAndRedoNeverMove(c: Config, calls: seq<Call>)
    ensures var m := Run(c, Start(c), calls);
      Apply(c, m, CallUndo) == Outcome(Returned(Bool(false)), m)
    ensures var m := Run(c, Start(c), calls);
      Apply(c, m, CallRedo) == Outcome(Returned(Bool(false)), m)
  {
    HistoryFlagsStayDown(c, calls);
  }

  /** One call keeps the current state declared in a well-formed configuration. */
  lemma StepStaysInDeclaredStates(c: Config, m: Machine, call: Call)
    requires WellFormed(c)
    requires HasState(c.states, m.current)
    ensures HasState(c.states, Apply(c, m, call).after.current)
  {
    if call.CallTrigger? {
      var o := Trigger(c, m, call.event);
      if o.reply.Returned? {
        var t := Lookup(c.states, m.current).value;
        var i :| 0 <= i < |c.states| && c.states[i].name == m.current && c.states[i].transitions == t;
        assert call.event in c.states[i].transitions;
      }
    }
  }

  lemma {:induction false} RunStaysInDeclaredStates(c: Config, m: Machine, calls: seq<Call>)
    requires WellFormed(c)
    requires HasState(c.states, m.current)
    ensures HasState(c.states, Run(c, m, calls).current)
    decreases |calls|
  {
    if |calls| > 0 {
      StepStaysInDeclaredStates(c, m, calls[0]);
      RunStaysInDeclaredStates(c, Apply(c, m, calls[0]).after, calls[1..]);
    }
  }

  /** With a well-formed configuration, whatever the caller does, the current
      state is always a key of `states`. */
  lemma ReachableStateIsDeclared(c: Config, calls: seq<Call>)
    requires WellFormed(c)
    ensures HasState(c.states, Run(c, Start(c), calls).current)
  {
    RunStaysInDeclaredStates(c, Start(c), calls);
  }

  /** Without well-formedness the invariant fails: `trigger` stores an
      undeclared target, and the next `trigger` dies on a TypeError. */
  lemma TriggerStoresUndeclaredTarget()
    ensures var c := Config("A", [StateDef("A", map["go" := "Nowhere"])]);
      var first := Trigger(c, Start(c), "go");
      && first.reply == Returned(Undefined)
      && first.after.current == "Nowhere"
      && !HasState(c.states, "Nowhere")
      && Trigger(c, first.after, "go") == Outcome(Threw(TypeError), first.after)
  {
    var c := Config("A", [StateDef("A", map["go" := "Nowhere"])]);
    assert Names(c.states) == ["A"];
  }

  /** With unique names, `trigger` follows exactly the declared transition of
      the current state's entry, and throws when that entry lacks the event. */
  lemma TriggerFollowsDeclaredTransition(c: Config, m: Machine, i: int, event: string)
    requires DistinctNames(c.states)
    requires 0 <= i < |c.states| && c.states[i].name == m.current
    ensures Trigger(c, m, event).reply.Returned? <==> event in c.states[i].transitions
    ensures event in c.states[i].transitions ==>
      Trigger(c, m, event).after == m.(current := c.states[i].transitions[event])
    ensures event !in c.states[i].transitions ==>
      Trigger(c, m, event) == Outcome(Threw(Thrown), m)
  {
    LookupByIndex(c.states, i);
  }

  /** `reset()` after any history gives back exactly the freshly built machine. */
  lemma ResetReturnsToStart(c: Config, calls: seq<Call>)
    ensures Reset(c, Run(c, Start(c), calls)).after == Start(c)
  {
    HistoryFlagsStayDown(c, calls);
  }

  /** Two resets are one. */
  lemma ResetIsIdempotent(c: Config, m: Machine)
    ensures Reset(c, Reset(c, m).after) == Reset(c, m)
  {
  }

  /** `getStates(event)` lists a subsequence of what `getStates()` lists. */
  lemma FilteredStatesAreSubsequence(c: Config, m: Machine, event: string)
    ensures IsSubsequence(GetStates(c, m, Some(event)).reply.value.items,
                          GetStates(c, m, None).reply.value.items)
  {
  }

  /** With unique names, any list of the states offering `event`, in declared
      order, is the one `getStates(event)` returns. */
  lemma GetStatesIsExact(c: Config, m: Machine, event: string, r: seq<string>)
    requires DistinctNames(c.states) && event != ""
    requires IsSubsequence(r, Names(c.states))
    requires forall n :: n in r <==> Declares(c.states, n, event)
    ensures GetStates(c, m, Some(event)).reply == Returned(StrArray(r))
  {
    SelectionIsExact(c.states, event, r);
  }

  /** A `getState`/`getStates` call slipped anywhere into a sequence of calls
      makes no difference to where the sequence ends. */
  lemma {:induction false} QueryIsInvisible(c: Config, m: Machine, before: seq<Call>, query: Call, after: seq<Call>)
    requires query.CallGetState? || query.CallGetStates?
    ensures Run(c, m, before + [query] + after) == Run(c, m, before + after)
    decreases |before|
  {
    if |before| == 0 {
      assert before + [query] + after == [query] + after;
      assert ([query] + after)[1..] == after;
      assert before + after == after;
    } else {
      var m' := Apply(c, m, before[0]).after;
      assert (before + [query] + after)[0] == before[0];
      assert (before + [query] + after)[1..] == before[1..] + [query] + after;
      assert (before + after)[0] == before[0];
      assert (before + after)[1..] == before[1..] + after;
      QueryIsInvisible(c, m', before[1..], query, after);
    }
  }

  /** The three-state example: A -to_b-> B, B -to_a-> A, B -to_c-> C. */
  function Example(): Config {
    Config("A", [
      StateDef("A", map["to_b" := "B"]),
      StateDef("B", map["to_a" := "A", "to_c" := "C"]),
      StateDef("C", map[])])
  }

  lemma ExampleNames()
    ensures Names(Example().states) == ["A", "B", "C"]
  {
    var st := Example().states;
    assert st[..1][..0] == [] && st[..2][..1] == st[..1];
    assert Names(st[..1]) == ["A"];
    assert Names(st[..2]) == ["A", "B"];
  }

  lemma ExampleLookups()
    ensures var st := Example().states;
      && Lookup(st, "A") == Some(st[0].transitions)
      && Lookup(st, "B") == Some(st[1].transitions)
      && Lookup(st, "C") == Some(st[2].transitions)
  {
    var st := Example().states;
    assert st[1..][0] == st[1];
    assert st[1..][1..] == [st[2]];
  }

  lemma ExampleFilter()
    ensures StatesWithEvent(Example().states, "to_a") == ["B"]
  {
    var st := Example().states;
    assert st[..1][..0] == [] && st[..2][..1] == st[..1];
    assert StatesWithEvent(st[..0], "to_a") == [];
    assert StatesWithEvent(st[..1], "to_a") == [];
    assert StatesWithEvent(st[..2], "to_a") == ["B"];
  }

  /** The example run as the code behaves: `undo()` reports false and stays
      put, and an unknown event throws. */
  lemma ExampleRun()
    ensures var c := Example();
      var b := Trigger(c, Start(c), "to_b").after;
      var cc := Trigger(c, b, "to_c").after;
      && b.current == "B"
      && cc.current == "C"
      && Undo(c, cc) == Outcome(Returned(Bool(false)), cc)
      && Trigger(c, cc, "nonexistent_event") == Outcome(Threw(Thrown), cc)
  {
    var c := Example();
    ExampleNames();
    ExampleLookups();
    var tA, tB, tC := c.states[0].transitions, c.states[1].transitions, c.states[2].transitions;
    assert "to_b" in tA && tA["to_b"] == "B";
    var b := Trigger(c, Start(c), "to_b").after;
    assert b == Machine("B", false, false);
    assert "to_c" in tB && tB["to_c"] == "C";
    var cc := Trigger(c, b, "to_c").after;
    assert cc == Machine("C", false, false);
    assert "nonexistent_event" !in tC;
  }

  /** `getStates` on the example lists every state, or only `B` for `to_a`. */
  lemma ExampleQueries(m: Machine)
    ensures GetStates(Example(), m, Some("to_a")).reply == Returned(StrArray(["B"]))
    ensures GetStates(Example(), m, None).reply == Returned(StrArray(["A", "B", "C"]))
    ensures GetStates(Example(), m, Some("")).reply == Returned(StrArray(["A", "B", "C"]))
  {
    ExampleNames();
    ExampleFilter();
  }
}
