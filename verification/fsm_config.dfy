/** The configuration an FSM is built from: an initial state name and an
    ordered table of states, each with its own event -> target transition map.

    The JavaScript object `states` becomes a sequence of (name, transitions)
    pairs so that the declared key order, which `Object.keys` and `for...in`
    expose, is explicit. A JavaScript object cannot hold a key twice; the
    functions here are total on any sequence, and the lemmas that need unique
    names say so with `DistinctNames`.
 */
module FsmConfig {

  datatype Option<+T> = None | Some(value: T)

  /** One entry of `config.states`: the state's name and its `transitions`. */
  datatype StateDef = StateDef(name: string, transitions: map<string, string>)

  /** The configuration handed to the constructor, taken as a value that
      does not change after construction. */
  datatype Config = Config(initial: string, states: seq<StateDef>)

  /** `Object.keys(states)`: the state names in declared order. */
  function Names(states: seq<StateDef>): (r: seq<string>)
    ensures |r| == |states|
    ensures forall i :: 0 <= i < |states| ==> r[i] == states[i].name
    decreases |states|
  {
    if |states| == 0 then []
    else Names(states[..|states| - 1]) + [states[|states| - 1].name]
  }

  /** `states.hasOwnProperty(name)`, read as plain key membership. */
  predicate HasState(states: seq<StateDef>, name: string)
    ensures HasState(states, name) <==> exists i :: 0 <= i < |states| && states[i].name == name
  {
    name in Names(states)
  }

  predicate Distinct(s: seq<string>) {
    forall i, j :: 0 <= i < j < |s| ==> s[i] != s[j]
  }

  /** The shape every JavaScript object has: no state name declared twice. */
  predicate DistinctNames(states: seq<StateDef>) {
    Distinct(Names(states))
  }

  /** Some declared entry named `name` has a transition on `event`. */
  predicate Declares(states: seq<StateDef>, name: string, event: string)
    ensures Declares(states, name, event) ==> HasState(states, name)
  {
    exists i :: 0 <= i < |states| && states[i].name == name && event in states[i].transitions
  }

  /** A configuration whose initial state and every transition target are
      declared states. The constructor and `trigger` never check this; it is
      the hypothesis under which the current state provably stays declared. */
  predicate WellFormed(c: Config) {
    && HasState(c.states, c.initial)
    && forall i, e :: 0 <= i < |c.states| && e in c.states[i].transitions ==>
         HasState(c.states, c.states[i].transitions[e])
  }

  /** `states[name].transitions`, or None where `states[name]` is undefined. */
  function Lookup(states: seq<StateDef>, name: string): (r: Option<map<string, string>>)
    ensures r.Some? <==> HasState(states, name)
    ensures r.Some? ==>
      exists i :: 0 <= i < |states| && states[i].name == name && states[i].transitions == r.value
    decreases |states|
  {
    if |states| == 0 then None
    else if states[0].name == name then Some(states[0].transitions)
    else
      var rest := Lookup(states[1..], name);
      assert rest.Some? <==> name in Names(states[1..]);
      assert name in Names(states) <==> name in Names(states[1..]) by {
        assert forall i :: 0 <= i < |states| - 1 ==> Names(states[1..])[i] == Names(states)[i + 1];
        if name in Names(states) {
          var k :| 0 <= k < |states| && Names(states)[k] == name;
          assert Names(states[1..])[k - 1] == name;
        }
      }
      if rest.Some? then
        var i :| 0 <= i < |states| - 1 && states[1..][i].name == name && states[1..][i].transitions == rest.value;
        assert states[i + 1] == states[1..][i];
        rest
      else rest
  }

  /** With unique names, the lookup finds exactly the entry of that name. */
  lemma LookupByIndex(states: seq<StateDef>, i: int)
    requires DistinctNames(states)
    requires 0 <= i < |states|
    ensures Lookup(states, states[i].name) == Some(states[i].transitions)
  {
    var r := Lookup(states, states[i].name);
    assert Names(states)[i] == states[i].name;
    var j :| 0 <= j < |states| && states[j].name == states[i].name && states[j].transitions == r.value;
    assert Names(states)[j] == Names(states)[i];
  }

  /** `a` occurs in `b` in order, possibly with gaps. */
  predicate IsSubsequence(a: seq<string>, b: seq<string>)
    decreases |b|
  {
    || |a| == 0
    || (&& |b| > 0
        && (|| (a[|a| - 1] == b[|b| - 1] && IsSubsequence(a[..|a| - 1], b[..|b| - 1]))
            || IsSubsequence(a, b[..|b| - 1])))
  }

  lemma {:induction false} SubsequenceReflexive(a: seq<string>)
    ensures IsSubsequence(a, a)
    decreases |a|
  {
    if |a| > 0 {
      SubsequenceReflexive(a[..|a| - 1]);
    }
  }

  lemma {:induction false} SubsequenceMembers(a: seq<string>, b: seq<string>)
    requires IsSubsequence(a, b)
    ensures forall x :: x in a ==> x in b
    decreases |b|
  {
    if |a| == 0 {
    } else if a[|a| - 1] == b[|b| - 1] && IsSubsequence(a[..|a| - 1], b[..|b| - 1]) {
      SubsequenceMembers(a[..|a| - 1], b[..|b| - 1]);
      assert a == a[..|a| - 1] + [a[|a| - 1]];
      assert b == b[..|b| - 1] + [b[|b| - 1]];
    } else {
      SubsequenceMembers(a, b[..|b| - 1]);
      assert b == b[..|b| - 1] + [b[|b| - 1]];
    }
  }

  /** In a subsequence of a duplicate-free `b`, the last element of `b`
      either ends `a` or does not occur in `a` at all. */
  lemma LastOfSubsequence(a: seq<string>, b: seq<string>)
    requires Distinct(b) && |b| > 0
    requires IsSubsequence(a, b)
    ensures || (|a| > 0 && a[|a| - 1] == b[|b| - 1] && IsSubsequence(a[..|a| - 1], b[..|b| - 1]))
            || (b[|b| - 1] !in a && IsSubsequence(a, b[..|b| - 1]))
  {
    var y, b' := b[|b| - 1], b[..|b| - 1];
    if |a| == 0 {
    } else if a[|a| - 1] == y && IsSubsequence(a[..|a| - 1], b') {
    } else {
      SubsequenceMembers(a, b');
      assert y !in b';
    }
  }

  /** Two subsequences of a duplicate-free sequence with the same members are
      the same sequence: order and membership together pin the result down. */
  lemma {:induction false} SubsequenceDeterminedByMembers(a1: seq<string>, a2: seq<string>, b: seq<string>)
    requires Distinct(b)
    requires IsSubsequence(a1, b) && IsSubsequence(a2, b)
    requires forall x :: x in a1 <==> x in a2
    ensures a1 == a2
    decreases |b|
  {
    if |b| == 0 {
    } else {
      var y, b' := b[|b| - 1], b[..|b| - 1];
      assert Distinct(b');
      LastOfSubsequence(a1, b);
      LastOfSubsequence(a2, b);
      if y in a1 {
        var p1, p2 := a1[..|a1| - 1], a2[..|a2| - 1];
        assert a1 == p1 + [y] && a2 == p2 + [y];
        SubsequenceMembers(p1, b');
        SubsequenceMembers(p2, b');
        assert y !in b';
        forall x ensures x in p1 <==> x in p2 {
          if x in p1 { assert x in a1 && x != y; assert x in a2; }
          if x in p2 { assert x in a2 && x != y; assert x in a1; }
        }
        SubsequenceDeterminedByMembers(p1, p2, b');
      } else {
        SubsequenceDeterminedByMembers(a1, a2, b');
      }
    }
  }

  /** The states declaring a transition on `event`, in declared order: the
      body of the `for...in` loop of `getStates`. */
  function StatesWithEvent(states: seq<StateDef>, event: string): (r: seq<string>)
    ensures IsSubsequence(r, Names(states))
    ensures forall n :: n in r <==> Declares(states, n, event)
    decreases |states|
  {
    if |states| == 0 then []
    else
      var prefix, last := states[..|states| - 1], states[|states| - 1];
      var rest := StatesWithEvent(prefix, event);
      assert Names(states) == Names(prefix) + [last.name];
      assert forall n :: Declares(states, n, event) <==>
          Declares(prefix, n, event) || (n == last.name && event in last.transitions) by {
        forall n ensures Declares(states, n, event) ==>
            Declares(prefix, n, event) || (n == last.name && event in last.transitions) {
          if Declares(states, n, event) {
            var i :| 0 <= i < |states| && states[i].name == n && event in states[i].transitions;
            if i < |prefix| { assert prefix[i] == states[i]; }
          }
        }
        forall n | Declares(prefix, n, event) ensures Declares(states, n, event) {
          var i :| 0 <= i < |prefix| && prefix[i].name == n && event in prefix[i].transitions;
          assert states[i] == prefix[i];
        }
      }
      if event in last.transitions then
        assert (rest + [last.name])[..|rest|] == rest;
        rest + [last.name]
      else
        rest
  }

  /** The membership-and-order description of `StatesWithEvent` has exactly
      one solution when names are unique. */
  lemma SelectionIsExact(states: seq<StateDef>, event: string, r: seq<string>)
    requires DistinctNames(states)
    requires IsSubsequence(r, Names(states))
    requires forall n :: n in r <==> Declares(states, n, event)
    ensures r == StatesWithEvent(states, event)
  {
    SubsequenceDeterminedByMembers(r, StatesWithEvent(states, event), Names(states));
  }

  /** The `for...in` loop of `getStates` as written: walk the states in
      declared order and push each one whose transitions hold `event`. */
  method CollectStatesWithEvent(states: seq<StateDef>, event: string) returns (result: seq<string>)
    ensures result == StatesWithEvent(states, event)
    ensures IsSubsequence(result, Names(states))
    ensures forall n :: n in result <==> Declares(states, n, event)
  {
    result := [];
    var i := 0;
    while i < |states|
      invariant 0 <= i <= |states|
      invariant result == StatesWithEvent(states[..i], event)
    {
      assert states[..i + 1][..i] == states[..i];
      if event in states[i].transitions {
        result := result + [states[i].name];
      }
      i := i + 1;
    }
    assert states[..i] == states;
  }

  /** `getStates(event)`: every name when `event` is undefined or empty,
      otherwise the states with a transition on `event`. */
  function StatesFor(states: seq<StateDef>, event: Option<string>): (r: seq<string>)
    ensures IsSubsequence(r, Names(states))
    ensures event.None? || event.value == "" ==> r == Names(states)
    ensures event.Some? && event.value != "" ==>
      forall n :: n in r <==> Declares(states, n, event.value)
  {
    if event.None? || event.value == "" then
      SubsequenceReflexive(Names(states));
      Names(states)
    else
      StatesWithEvent(states, event.value)
  }
}
