/** The `FSM` class: a machine record `(current, undoFlag, redoFlag)` standing
    for the instance fields `_state`, `_undo` and `_redo`, and one pure step
    function per public method. A step takes the configuration, as a fixed
    value, and the machine before the call, and yields what the call returned
    or threw together with the machine after it.
 */
module Fsm {
  import opened FsmConfig

  datatype Machine = Machine(current: string, undoFlag: bool, redoFlag: bool)

  /** How a call can fail: an explicit `throw new Error()`, or the TypeError
      JavaScript raises when `trigger` reads `.transitions` of an undefined
      `states[_state]`. */
  datatype Failure = Thrown | TypeError

  datatype Result<+T> = Ok(value: T) | Err(failure: Failure)

  /** What a method returns; `Undefined` for methods without a return value. */
  datatype Value = Undefined | Str(text: string) | StrArray(items: seq<string>) | Bool(flag: bool)

  datatype Reply = Returned(value: Value) | Threw(failure: Failure)

  datatype Outcome = Outcome(reply: Reply, after: Machine)

  /** The constructor: refuses a missing configuration, otherwise starts at
      `initial` with both history flags down. Nothing about `initial` is
      checked. */
  function New(config: Option<Config>): (r: Result<Machine>)
    ensures r.Err? <==> config.None?
    ensures r.Err? ==> r.failure == Thrown
    ensures r.Ok? ==> r.value.current == config.value.initial
    ensures r.Ok? ==> !r.value.undoFlag && !r.value.redoFlag
  {
    match config
    case None => Err(Thrown)
    case Some(c) => Ok(Machine(c.initial, false, false))
  }

  /** `getState()`: reports the current state and changes nothing. */
  function GetState(m: Machine): (r: Outcome)
    ensures r.after == m
    ensures r.reply == Returned(Str(r.after.current))
  {
    Outcome(Returned(Str(m.current)), m)
  }

  /** `changeState(state)`: moves to `state` exactly when it is a declared
      state and returns it; otherwise throws and leaves the machine alone. */
  function ChangeState(c: Config, m: Machine, state: string): (r: Outcome)
    ensures r.reply.Returned? <==> HasState(c.states, state)
    ensures r.reply.Returned? ==> r.reply.value == Str(state) && r.after.current == state
    ensures r.reply.Threw? ==> r.reply.failure == Thrown && r.after == m
    ensures r.after.undoFlag == m.undoFlag && r.after.redoFlag == m.redoFlag
  {
    if !HasState(c.states, state) then Outcome(Threw(Thrown), m)
    else Outcome(Returned(Str(state)), m.(current := state))
  }

  /** `trigger(event)`: follows the current state's transition on `event`.
      The target is stored as it is, declared state or not. */
  function Trigger(c: Config, m: Machine, event: string): (r: Outcome)
    ensures !HasState(c.states, m.current) ==> r.reply == Threw(TypeError)
    ensures HasState(c.states, m.current) && r.reply.Threw? ==> r.reply.failure == Thrown
    ensures r.reply.Returned? <==>
      HasState(c.states, m.current) && event in Lookup(c.states, m.current).value
    ensures r.reply.Returned? ==>
      r.reply.value == Undefined && r.after.current == Lookup(c.states, m.current).value[event]
    ensures r.reply.Threw? ==> r.after == m
    ensures r.after.undoFlag == m.undoFlag && r.after.redoFlag == m.redoFlag
  {
    match Lookup(c.states, m.current)
    case None => Outcome(Threw(TypeError), m)
    case Some(transitions) =>
      if event in transitions then Outcome(Returned(Undefined), m.(current := transitions[event]))
      else Outcome(Threw(Thrown), m)
  }

  /** `reset()`: jumps to `initial` from anywhere, unchecked, and returns it. */
  function Reset(c: Config, m: Machine): (r: Outcome)
    ensures r.reply == Returned(Str(c.initial))
    ensures r.after.current == c.initial
    ensures r.after.undoFlag == m.undoFlag && r.after.redoFlag == m.redoFlag
  {
    Outcome(Returned(Str(c.initial)), m.(current := c.initial))
  }

  /** `getStates(event)`: a pure query; `None` stands for `undefined`. */
  function GetStates(c: Config, m: Machine, event: Option<string>): (r: Outcome)
    ensures r.after == m
    ensures r.reply.Returned? && r.reply.value.StrArray?
    ensures IsSubsequence(r.reply.value.items, Names(c.states))
    ensures event.None? || event.value == "" ==> r.reply.value.items == Names(c.states)
    ensures event.Some? && event.value != "" ==>
      forall n :: n in r.reply.value.items <==> Declares(c.states, n, event.value)
  {
    Outcome(Returned(StrArray(StatesFor(c.states, event))), m)
  }

  /** `undo()`: lowers the undo flag when at `initial` and returns the flag.
      The current state never moves; the flag is never raised. */
  function Undo(c: Config, m: Machine): (r: Outcome)
    ensures r.after.current == m.current && r.after.redoFlag == m.redoFlag
    ensures r.after.undoFlag <==> m.undoFlag && m.current != c.initial
    ensures r.reply == Returned(Bool(r.after.undoFlag))
  {
    var after := if m.current == c.initial then m.(undoFlag := false) else m;
    Outcome(Returned(Bool(after.undoFlag)), after)
  }

  /** `redo()`: returns the redo flag and changes nothing. */
  function Redo(m: Machine): (r: Outcome)
    ensures r.after == m
    ensures r.reply == Returned(Bool(m.redoFlag))
  {
    Outcome(Returned(Bool(m.redoFlag)), m)
  }

  /** `clearHistory()`: lowers both flags; the current state stays. */
  function ClearHistory(m: Machine): (r: Outcome)
    ensures r.reply == Returned(Undefined)
    ensures r.after.current == m.current
    ensures !r.after.undoFlag && !r.after.redoFlag
  {
    Outcome(Returned(Undefined), m.(undoFlag := false, redoFlag := false))
  }

  /** One call of a public method on an existing instance. */
  datatype Call =
    | CallGetState
    | CallChangeState(state: string)
    | CallTrigger(event: string)
    | CallReset
    | CallGetStates(filter: Option<string>)
    | CallUndo
    | CallRedo
    | CallClearHistory

  /** Dispatches a call. Every call is atomic (a throw changes nothing), no
      call raises a history flag, and only the three moves change the state. */
  function Apply(c: Config, m: Machine, call: Call): (o: Outcome)
    ensures o.reply.Threw? ==> o.after == m
    ensures o.after.undoFlag ==> m.undoFlag
    ensures o.after.redoFlag ==> m.redoFlag
    ensures o.after.current != m.current ==>
      call.CallChangeState? || call.CallTrigger? || call.CallReset?
    ensures call.CallGetState? || call.CallGetStates? ==> o.after == m
  {
    match call
    case CallGetState => GetState(m)
    case CallChangeState(state) => ChangeState(c, m, state)
    case CallTrigger(event) => Trigger(c, m, event)
    case CallReset => Reset(c, m)
    case CallGetStates(filter) => GetStates(c, m, filter)
    case CallUndo => Undo(c, m)
    case CallRedo => Redo(m)
    case CallClearHistory => ClearHistory(m)
  }

  /** The machine after a sequence of calls; a call that throws is caught by
      the caller, which goes on with the unchanged machine. */
  function Run(c: Config, m: Machine, calls: seq<Call>): Machine
    decreases |calls|
  {
    if |calls| == 0 then m
    else Run(c, Apply(c, m, calls[0]).after, calls[1..])
  }

  /** The machine a successful constructor call yields. */
  function Start(c: Config): Machine {
    New(Some(c)).value
  }
}
