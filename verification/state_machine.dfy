/** ig.ButtonStateMachine: the instance record, init, and one updateState tick. */
module StateMachine {
  import opened Wrappers
  import opened ButtonTypes
  import opened InputDerivation
  import DefaultTable

  /** The instance: its table, the current state, the input committed on the
      last changed tick, and the latch that turns button levels into edges. */
  datatype Machine = Machine(table: Table, currentState: ButtonState, lastInput: InputState, mouseIsActive: bool)

  /** The outcome of one tick: the machine afterwards, updateState's boolean
      result, and the callback invoked on this tick, if any. */
  datatype StepResult = StepResult(machine: Machine, ok: bool, fired: Option<EventName>)

  /** A table row exists for every state a valid cell of the table leads to,
      so a machine that starts on a row never falls off the table. */
  ghost predicate Closed(t: Table)
  {
    forall s, i | s in t && i in t[s] :: IsValidButtonState(t[s][i].next) ==> t[s][i].next in t
  }

  /** What updateState needs of a machine for every later tick: its current
      state has a row, and so does every state the table can lead to. */
  ghost predicate WellFormed(m: Machine)
  {
    m.currentState in m.table && Closed(m.table)
  }

  /** The latch agrees with the last committed input: after a down edge the
      press is latched, after an up edge it is not. */
  ghost predicate LatchConsistent(m: Machine)
  {
    && (IsDownEdge(m.lastInput) ==> m.mouseIsActive)
    && (IsUpEdge(m.lastInput) ==> !m.mouseIsActive)
  }

  /** The cell for (state, input), or None when the row has no such key. */
  function Lookup(t: Table, s: ButtonState, i: InputState): Option<Entry>
    requires s in t
  {
    if i in t[s] then Some(t[s][i]) else None
  }

  /** init(stateTable): the given table, or the shared default when none is
      given; the button starts OUTSIDE with no input seen and no press
      latched. On the default table, or on a closed custom table with an
      OUTSIDE row, the new machine is well formed and latch-consistent, and
      its state is a valid one. */
  function Init(table: Option<Table>): (m: Machine)
    ensures m.table == (if table.Some? then table.value else DefaultTable.Default)
    ensures m.currentState == Outside && m.lastInput == InputState.Invalid && !m.mouseIsActive
    ensures (table.None? || (Outside in table.value && Closed(table.value))) ==>
      WellFormed(m) && LatchConsistent(m) && IsValidButtonState(m.currentState)
  {
    DefaultTable.DefaultIsTotalOnDerivableInputs();
    var t := if table.Some? then table.value else DefaultTable.Default;
    Machine(t, Outside, InputState.Invalid, false)
  }

  /** The second half of updateState, applied to the derived input. An
      unchanged input is a successful no-op. A changed input is committed
      first; then a missing cell or a target that is not a valid button
      state rejects the tick with the state kept; otherwise the state becomes
      the cell's target and the cell's callback fires once, when the button
      defines it. */
  function Transition(m: Machine, input: InputState, handlers: set<EventName>): (r: StepResult)
    requires input != m.lastInput ==> m.currentState in m.table
    ensures r.machine.table == m.table && r.machine.mouseIsActive == m.mouseIsActive
    ensures r.machine.lastInput == input
    ensures input == m.lastInput ==> r == StepResult(m, true, None)
    ensures input != m.lastInput ==>
      var cell := Lookup(m.table, m.currentState, input);
      && (r.ok <==> cell.Some? && cell.value.next != ButtonState.Ignore)
      && (r.ok ==> r.machine.currentState == cell.value.next)
      && (r.ok ==> r.fired == (if cell.value.event in handlers then Some(cell.value.event) else None))
    ensures !r.ok ==> r.machine.currentState == m.currentState && r.fired.None?
    ensures r.fired.Some? ==> r.fired.value in handlers
  {
    ValueIdentifiesInput(input, m.lastInput);
    if Value(input) == Value(m.lastInput) then
      StepResult(m, true, None)
    else
      var committed := m.(lastInput := input);
      var cell := Lookup(m.table, m.currentState, input);
      if cell.None? then
        StepResult(committed, false, None)
      else if !IsValidButtonState(cell.value.next) then
        StepResult(committed, false, None)
      else
        var fired := if cell.value.event in handlers then Some(cell.value.event) else None;
        StepResult(committed.(currentState := cell.value.next), true, fired)
  }

  /** One updateState tick: derive the input from the sampled predicates and
      the latch, then apply the transition. Afterwards the latch holds the
      mouse button as sampled if the button was enabled and is untouched
      otherwise, the committed input is the derived one, the machine is
      latch-consistent whatever it was before, and a valid current state
      stays valid and on the table. */
  function Step(m: Machine, s: Sample, handlers: set<EventName>): (r: StepResult)
    requires Derive(s, m.mouseIsActive).input != m.lastInput ==> m.currentState in m.table
    ensures r.machine.table == m.table
    ensures r.machine.mouseIsActive == (if s.enabled then s.down else m.mouseIsActive)
    ensures r.machine.lastInput == Derive(s, m.mouseIsActive).input
    ensures LatchConsistent(r.machine)
    ensures IsValidButtonState(m.currentState) ==> IsValidButtonState(r.machine.currentState)
    ensures WellFormed(m) ==> WellFormed(r.machine)
  {
    var d := Derive(s, m.mouseIsActive);
    Transition(m.(mouseIsActive := d.active), d.input, handlers)
  }

  /** A tick whose derived input equals the committed one changes nothing at
      all on a latch-consistent machine: same machine, result true, no callback. */
  lemma UnchangedInputIsNoOp(m: Machine, s: Sample, handlers: set<EventName>)
    requires LatchConsistent(m)
    requires Derive(s, m.mouseIsActive).input == m.lastInput
    ensures Step(m, s, handlers) == StepResult(m, true, None)
  {
  }

  /** A tick with a changed input commits it even when the transition is
      rejected: the state and callbacks stay as they were but the new input
      is what the next tick is compared against. */
  lemma RejectedTickCommitsInput(m: Machine, s: Sample, handlers: set<EventName>)
    requires m.currentState in m.table
    requires !Step(m, s, handlers).ok
    ensures var r := Step(m, s, handlers);
      && r.machine.currentState == m.currentState
      && r.fired == None
      && r.machine.lastInput != m.lastInput
      && r.machine.lastInput == Derive(s, m.mouseIsActive).input
  {
  }

  /** With the default table a tick is rejected only by an IGNORE cell, never
      by a missing one. */
  lemma DefaultTableRejectsOnlyIgnore(m: Machine, s: Sample, handlers: set<EventName>)
    requires m.table == DefaultTable.Default && IsValidButtonState(m.currentState)
    ensures var d := Derive(s, m.mouseIsActive);
      && m.currentState in m.table
      && d.input in m.table[m.currentState]
      && (!Step(m, s, handlers).ok <==> d.input != m.lastInput && m.table[m.currentState][d.input].next == ButtonState.Ignore)
  {
    DefaultTable.DefaultIsTotalOnDerivableInputs();
  }
}
