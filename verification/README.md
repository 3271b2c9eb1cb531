# FSM: a verified model of a small event-driven state machine

The `FSM` class is built from a configuration `{initial, states}`. Here
`states` maps each state name to `{transitions}`, and `transitions` maps
each event name to a target state name. An instance keeps a current state
(`_state`) and two history flags (`_undo`, `_redo`). It offers these
methods: `getState`, `changeState`, `trigger`, `reset`, `getStates`,
`undo`, `redo` and `clearHistory`.

The model is written in a functional style:

- `fsm_config.dfy` (module `FsmConfig`) holds the configuration, treated as
  a value that does not change after construction.
  `states` is a sequence of `(name, transitions)` pairs, so the declared key
  order that `Object.keys` and `for...in` expose is explicit. The module also
  holds the key lookup `states[name]` and the `getStates` filter, given both
  as a function and as the loop the source writes, with a small theory of
  subsequences that pins the filter's result down exactly.
- `fsm.dfy` (module `Fsm`) has the machine record
  `Machine(current, undoFlag, redoFlag)` and one pure step function per
  method. Each step returns an `Outcome`: what the call returned or threw,
  and the machine after the call. A bare `throw new Error()` is
  `Threw(Thrown)`. The JavaScript TypeError raised by reading `.transitions`
  of an undeclared current state is `Threw(TypeError)`. `Apply` dispatches
  one `Call`. `Run` folds a sequence of calls in which every exception is
  caught and the caller carries on.
- `fsm_properties.dfy` (module `FsmProperties`) proves properties of whole
  call sequences, plus a worked three-state example.

The model follows the code, not an idealised FSM:

- `trigger` stores `transitions[event]` without checking that the target is
  a declared state. The current state stays declared only when the
  configuration is well formed: `initial` and every target are keys of
  `states`. The constructor and `reset` never check `initial`.
- `_undo` and `_redo` start `false`, and the only assignments to them are
  also `false`. So on every reachable machine, `undo()` and `redo()` return
  `false` and never move. The doc-comments of `undo` and `redo`
  (src/fsm.js:100, src/fsm.js:117) describe going back to a previous state
  and forward again, but the code only reads and lowers two flags, so no
  history is modelled.
- The code throws bare `Error` objects with no error kinds. The model only
  tells such a throw apart from the TypeError of a property read on
  `undefined`.
- `trigger` takes a transition to a name that is not a key of `states`
  without complaint, as `TriggerStoresUndeclaredTarget` shows.

## Model

| member | source | states |
|---|---|---|
| `Fsm.New` | src/fsm.js:6-17 | Construction throws exactly when the configuration is missing. Otherwise the machine starts at `initial` with both history flags down, and `initial` is not checked. |
| `Fsm.GetState` | src/fsm.js:24-26 | Returns the current state and leaves the machine as it was. |
| `Fsm.ChangeState` | src/fsm.js:32-41 | Succeeds if and only if the name is a declared state. On success it returns that name and the current state becomes that name. On failure it throws and the machine is unchanged. The flags are never touched. |
| `Fsm.Trigger` | src/fsm.js:47-61 | An undeclared current state gives a TypeError. Otherwise the call succeeds if and only if the current state's transitions hold the event. It then returns undefined and stores the mapped target without checking it. A throw leaves the machine unchanged, and the flags are untouched. |
| `Fsm.Reset` | src/fsm.js:66-68 | From any machine, it moves to `initial` and returns `initial`. The flags are untouched. |
| `Fsm.GetStates` | src/fsm.js:76-97 | A pure query. With the event undefined or `''`, the result is all of `Object.keys(states)`. Otherwise the result is in declared order (a subsequence of `Object.keys`), and a name is listed if and only if its state declares that event. |
| `Fsm.Undo` | src/fsm.js:104-114 | Never moves the current state or the redo flag. The undo flag stays up only if it was up and the state is not `initial`. Returns the flag. |
| `Fsm.Redo` | src/fsm.js:121-123 | Returns the redo flag and changes nothing. |
| `Fsm.ClearHistory` | src/fsm.js:128-131 | Lowers both flags, keeps the current state, and returns undefined. |
| `Fsm.Apply` | src/fsm.js:32-131 | Every method call is atomic: a throw changes nothing. No call raises a history flag. Only `changeState`, `trigger` and `reset` can move the state, and `getState`/`getStates` leave the machine unchanged. |
| `FsmConfig.Names` | src/fsm.js:84 | `Object.keys(states)`: one name per declared entry, in declared order. |
| `FsmConfig.HasState` | src/fsm.js:35 | `states.hasOwnProperty(name)`: true if and only if some declared entry has that name. |
| `FsmConfig.Declares` | src/fsm.js:90 | `states[name].transitions.hasOwnProperty(event)` for some entry named `name`; it can only hold for a declared state. |
| `FsmConfig.Lookup` | src/fsm.js:52 | `states[name]` is defined if and only if `name` is a declared key. The transitions it yields are those of an entry with that name. |
| `FsmConfig.LookupByIndex` | src/fsm.js:52 | With unique names, looking up an entry's name yields exactly that entry's transitions. |
| `FsmConfig.StatesWithEvent` | src/fsm.js:89-93 | The filtered list is a subsequence of the declared names. A name is in it if and only if its entry has a transition on the event. |
| `FsmConfig.CollectStatesWithEvent` | src/fsm.js:88-95 | The `for...in` loop as written computes exactly `StatesWithEvent`, proved through its loop invariant. So it lists the declaring states in declared order. |
| `FsmConfig.StatesFor` | src/fsm.js:81-96 | With the event undefined or `''`, it gives all names. With any other event, it gives exactly the states that declare it. The result is in declared order in both cases. |
| `FsmConfig.SelectionIsExact` | src/fsm.js:89-95 | With unique names, order plus membership has exactly one solution, so the `getStates(event)` result is fully determined. |
| `FsmProperties.RunNeverRaisesHistoryFlags` | src/fsm.js:104-131 | Across any sequence of calls, a history flag that was down stays down. |
| `FsmProperties.HistoryFlagsStayDown` | src/fsm.js:11-12 | In every machine reachable from the constructor, both flags are false. |
| `FsmProperties.UndoAndRedoNeverMove` | src/fsm.js:104-123 | On every reachable machine, `undo()` and `redo()` return false and leave the machine unchanged. |
| `FsmProperties.StepStaysInDeclaredStates` | src/fsm.js:32-68 | With a well-formed configuration, one call from a declared state ends in a declared state. |
| `FsmProperties.RunStaysInDeclaredStates` | src/fsm.js:32-68 | The same holds for any sequence of calls. |
| `FsmProperties.ReachableStateIsDeclared` | src/fsm.js:6-68 | With a well-formed configuration, the current state of every reachable machine is a key of `states`. |
| `FsmProperties.TriggerStoresUndeclaredTarget` | src/fsm.js:52-56 | A transition to an undeclared name is taken as is, and the next `trigger` then fails with a TypeError. |
| `FsmProperties.TriggerFollowsDeclaredTransition` | src/fsm.js:52-60 | With unique names, `trigger` succeeds if and only if the current state's entry declares the event. It then moves to that entry's target; otherwise it throws and changes nothing. |
| `FsmProperties.ResetReturnsToStart` | src/fsm.js:66-68 | `reset()` after any history yields exactly the freshly constructed machine. |
| `FsmProperties.ResetIsIdempotent` | src/fsm.js:66-68 | Two resets give the same reply and machine as one. |
| `FsmProperties.FilteredStatesAreSubsequence` | src/fsm.js:76-97 | `getStates(event)` lists a subsequence of what `getStates()` lists. |
| `FsmProperties.GetStatesIsExact` | src/fsm.js:86-96 | With unique names, any declared-order list of exactly the states offering the event is what `getStates(event)` returns. |
| `FsmProperties.QueryIsInvisible` | src/fsm.js:24-97 | A `getState`/`getStates` call inserted anywhere into a sequence of calls does not change the machine that sequence ends in. |
| `FsmProperties.ExampleRun` | src/fsm.js:47-114 | On the A/B/C example: `to_b` then `to_c` reach `B` then `C`. `undo()` then returns false and stays at `C`, and an unknown event throws without moving. |
| `FsmProperties.ExampleQueries` | src/fsm.js:76-97 | On the A/B/C example: `getStates('to_a')` is `['B']`, and `getStates()` and `getStates('')` list `A`, `B`, `C`. |

## Left out

- `console.info` in `trigger` (src/fsm.js:49) is a logging side effect that has no bearing on the state.
- The contents of thrown `Error` objects are not modelled. The code throws bare errors, so only throw versus TypeError is distinguished.
- `module.exports` and the class/prototype plumbing are not modelled.
- `Object.keys` puts integer-like keys first. Names here are taken in declared order.
- Inherited properties are ignored: `hasOwnProperty` and `states[name]` are read as plain key membership, so names like `toString` get no special treatment.
- An own key named `hasOwnProperty` in `states` or in a `transitions` object is not modelled. It hides the method, so `changeState` (src/fsm.js:35), `trigger` (src/fsm.js:54) and `getStates(event)` (src/fsm.js:90) would throw a TypeError ("is not a function").
- The constructor keeps `config` by reference (src/fsm.js:9). A caller that later changes `config.initial` or `config.states` changes what the instance does. The model takes the configuration as a fixed value, so it does not cover such outside changes.
- The unused locals `statesArr` and `count` in `undo` (src/fsm.js:106-107) are left out. The `getStates()` call there is pure.
- A configuration with `initial` or `states` missing, or a state without `transitions`, is outside the datatype. With `initial` missing, `getState()` and `reset()` return `undefined`, `undo()` works normally, and only `trigger` fails, with a TypeError. With `states` missing, `changeState`, `trigger`, `getStates()`/`getStates('')` and `undo()` throw a TypeError (`undo` calls `getStates()` at src/fsm.js:106), and `getStates(event)` returns `[]`, because `for...in` over `undefined` runs zero times. A state without `transitions` makes `trigger` from it, and `getStates(event)`, fail the same way. None of this is modelled.
- `null` as a configuration or event is treated like `undefined`. Non-string arguments to `changeState` and `trigger`, and JavaScript's loose comparison `event == ''` for non-strings, are not modelled. For example, `changeState(1)` with a key `"1"` passes `hasOwnProperty` (src/fsm.js:35) and stores the number `1` (src/fsm.js:39).
- The doc-comments of `undo`, `redo` and `clearHistory` (src/fsm.js:100, 117, 126) describe moving back and forward through a transition history. The code keeps no history, only two flags, so no history is modelled.
