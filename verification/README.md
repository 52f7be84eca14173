# Button state machine (Impact `ig.ButtonStateMachine`), modelled in Dafny

The Impact engine plugin `ig.ButtonStateMachine` turns three per-frame
predicates of a UI button into discrete button states and fires named
callbacks on state changes. Each `updateState()` tick does two things:

1. **Input derivation.** It reads `isEnabled()`, `isMouseInside()` and
   `isMouseDown()`, plus the one-bit latch `mouseIsActive`, and derives
   exactly one `INPUTSTATE`. A down or up edge is detected against the latch.
2. **Transition.** If the derived input equals `lastInputState`, the tick is a
   successful no-op. Otherwise the input is committed first. The cell
   `stateTable[currentState][input]` is looked up next. A missing cell, or a
   target that `isValidButtonState` rejects (`IGNORE`), makes the tick return
   `false` with the state kept. Otherwise the state becomes the target, and
   the cell's callback fires once if the button defines it.

The model is functional. A `Machine` record holds the table, the current
state, the last input and the latch. `Step` is a pure function from a machine
and one `Sample` of the three predicates to a `StepResult`: the new machine,
the boolean result, and the callback fired, if any. The callbacks the button
defines are a `set<EventName>`. `Run` folds `Step` over a sequence of samples,
as the host frame loop does.

Modules:

- `ButtonTypes` (button_types.dfy): the `INPUTSTATE` and `BUTTONSTATE`
  enumerations, the callback names, the table type, and `isValidButtonState`.
- `InputDerivation` (input_derivation.dfy): the first half of `updateState`.
- `DefaultTable` (default_table.dfy): `ig.ButtonStateMachine.stateTable` and
  its shape.
- `StateMachine` (state_machine.dfy): `init`, the transition, and one tick.
- `TickRuns` (tick_runs.dfy): sequences of ticks, covering latch tracking,
  edge alternation, the absorbing DISABLED state and repeated samples.
- `Scenarios` (scenarios.dfy): concrete hover/press/release/disable sequences.
- `Wrappers` (wrappers.dfy): `Option`.

Main results:

- Derivation never yields `ENABLED` or `INVALID`.
- A down edge is derived exactly on a press the latch has not seen. An up edge
  is derived exactly on the release of a latched press.
- Over any run, the latch equals the mouse-button level of the last enabled
  sample, and down and up edges strictly alternate.
- The current state is never `IGNORE`.
- Under the default table, DISABLED is absorbing. The `DISABLED → ENABLED`
  cell (button-state-machine.js:191) is dead, because no tick derives
  `ENABLED`. Once disabled, the button stays disabled and fires nothing, even
  after `isEnabled()` turns true again.
- Sampling the same predicates repeatedly settles by the third tick, for any
  table. Under the default table, the second tick neither changes the state
  nor fires a callback.

## Notes on the source's own comments and table

- The comment at button-state-machine.js:97 says the state is updated only
  when the input changes. A changed input is committed even when its cell
  rejects the transition. Dragging out of INSIDEACTIVE while pressed derives
  MOUSEOUT. Its cell is an explicit `IGNORE` entry (button-state-machine.js:177),
  not a missing one. The tick returns `false`, the state is kept, no callback
  fires, and MOUSEOUT becomes the last input (`Scenarios.DragOutThenRelease`).
- The DISABLED row has an ENABLED cell targeting OUTSIDE
  (button-state-machine.js:191). Derivation never yields ENABLED, so that
  cell is dead. A disabled button stays DISABLED even after `isEnabled()`
  turns true again (`TickRuns.DisabledIsAbsorbing`,
  `Scenarios.DisableWhilePressed`). The model adds no re-enable path.
- The comment at button-state-machine.js:49 says the callbacks fire once per
  state transition. Calling `updateState()` again with unchanged predicates
  is not always a no-op. After an edge, the next tick derives the level
  input, which is a changed input. `updateState()` returns `false` on that
  tick and commits the level input. Under the default table it neither
  changes the state nor fires a callback. The third identical tick is a true
  no-op, for any table (`TickRuns.RepeatedSampleSettles`,
  `TickRuns.DefaultTableActsOnce`).

## Model

| member | source | states |
|---|---|---|
| ButtonTypes.ValueIdentifiesInput | button-state-machine.js:19-29 | The numeric values of the input constants are pairwise distinct, so the value comparison in updateState is input identity. |
| ButtonTypes.IsValidButtonState | button-state-machine.js:127-136 | A state is valid exactly when it is not IGNORE. |
| InputDerivation.Derive | button-state-machine.js:69-95 | The result is never ENABLED or INVALID. It is DISABLED iff not enabled, and in the inside family iff enabled and inside. It is a down edge iff enabled, down and unlatched, and an up edge iff enabled, up and latched. The latch becomes the mouse-button level when enabled and is untouched when disabled. |
| InputDerivation.DerivationSpecIsFunctional | button-state-machine.js:69-95 | These conditions admit exactly one derivation, so they determine the source's derivation completely. |
| InputDerivation.HeldPressIsLevel | button-state-machine.js:75-90 | A press held over two enabled ticks derives the level MOUSEIN/MOUSEOUT on the second. |
| InputDerivation.DisabledTickKeepsPress | button-state-machine.js:71-79 | A disabled tick does not reset the latch, so re-enabling while still pressed derives no new down edge. |
| InputDerivation.RederiveSettles | button-state-machine.js:73-95 | Deriving the same sample again turns an edge into its level and repeats any other input, with the latch unchanged. |
| DefaultTable.DefaultIsTotalOnDerivableInputs | button-state-machine.js:153-193 | The default table has rows for exactly the four valid states. Every row has a cell for every derivable input, and ENABLED appears only in the DISABLED row. |
| DefaultTable.DisabledRowLeavesOnlyOnEnabled | button-state-machine.js:183-192 | In the DISABLED row, only the ENABLED cell names a valid target. |
| DefaultTable.DisabledInputDisables | button-state-machine.js:155-182 | From OUTSIDE, INSIDE and INSIDEACTIVE, a DISABLED input targets DISABLED. |
| DefaultTable.DefaultEventsMatchTransitions | button-state-machine.js:153-193 | For real transitions: startHover iff OUTSIDE→INSIDE, endHover iff INSIDE→OUTSIDE, startClick iff the target is INSIDEACTIVE, endClick iff INSIDEACTIVE→INSIDE, and endClickIgnore iff leaving INSIDEACTIVE for anywhere other than INSIDE. |
| DefaultTable.LevelAfterEdgeIsIgnored | button-state-machine.js:155-182 | Whatever state an edge leaves the button in, the level input that follows the edge is an IGNORE cell there. |
| StateMachine.Init | button-state-machine.js:63-66 | init installs the given table, or the shared default when none is given. The button starts OUTSIDE with no input seen and no press latched. On the default table, or on a closed custom table with an OUTSIDE row, the new machine is well formed and latch-consistent, and its state is valid. |
| StateMachine.Transition | button-state-machine.js:97-122 | An unchanged input returns true and changes nothing. A changed input is always committed, and the latch and table are untouched. The tick succeeds iff the cell exists and is not IGNORE. On success the state is the cell's target and the cell's callback fires iff the button defines it. On failure the state is kept and nothing fires. |
| StateMachine.Step | button-state-machine.js:67-122 | After a tick, the latch is the sampled mouse button if enabled and unchanged if disabled. The committed input is the derived one, and the machine is latch-consistent. A valid state stays valid (never IGNORE) and stays on the table. |
| StateMachine.UnchangedInputIsNoOp | button-state-machine.js:98-122 | On a latch-consistent machine, a tick deriving the committed input leaves the whole machine unchanged, returns true and fires nothing. |
| StateMachine.RejectedTickCommitsInput | button-state-machine.js:103-114 | A rejected tick keeps the state and fires nothing, but the new derived input replaces lastInputState. |
| StateMachine.DefaultTableRejectsOnlyIgnore | button-state-machine.js:105-114 | Under the default table a lookup never misses. A tick is rejected iff the input changed and its cell is IGNORE. |
| TickRuns.Run | button-state-machine.js:67-122 | Over any sequence of ticks the table is never changed. Every intermediate machine is well formed and latch-consistent, and the current state never becomes IGNORE. |
| TickRuns.LatchFollowsLastEnabledSample | button-state-machine.js:71-95 | After any prefix of a run, mouseIsActive is the mouse-button level of the last enabled sample, or the initial latch if no sample was enabled. |
| TickRuns.EdgeAtTick | button-state-machine.js:75-94 | Within a run, tick k derives a down edge iff it is enabled, down and the latch was clear. It derives an up edge iff it is enabled, up and the latch was set. |
| TickRuns.EdgesAlternate | button-state-machine.js:75-94 | Between two down edges of a run there is an up edge, and between two up edges there is a down edge. |
| TickRuns.FirstEdgeIsDown | button-state-machine.js:60-94 | Starting unlatched, as init does, every up edge is preceded by a down edge. |
| TickRuns.DisabledTickStaysDisabled | button-state-machine.js:183-191 | Under the default table, one tick from DISABLED stays DISABLED and fires nothing. |
| TickRuns.DisabledIsAbsorbing | button-state-machine.js:71-191 | Under the default table, once DISABLED every later tick stays DISABLED and fires nothing, whatever isEnabled() says. |
| TickRuns.RepeatedSampleSettles | button-state-machine.js:73-122 | For any table, the second tick with the same sample derives no edge, and the third is a complete no-op returning true. |
| TickRuns.DefaultTableActsOnce | button-state-machine.js:97-193 | Under the default table, repeating a sample never changes the state again or fires a second callback. |
| Scenarios.HoverPressRelease | button-state-machine.js:155-181 | From init, hover, press and release inside give INSIDE/startHover, then INSIDEACTIVE/startClick, then INSIDE/endClick. |
| Scenarios.DragOutThenRelease | button-state-machine.js:160-181 | Pressing inside and dragging out while held is rejected (MOUSEOUT is IGNORE in INSIDEACTIVE). Releasing outside then gives OUTSIDE/endClickIgnore. |
| Scenarios.DisableWhilePressed | button-state-machine.js:174-191 | Disabling a pressed button gives DISABLED/endClickIgnore. Re-enabling while still pressed is rejected, and the button stays DISABLED. |
| Scenarios.HeldPressSecondTickRejected | button-state-machine.js:97-122 | Holding a press inside for a second tick returns false and commits MOUSEIN, keeps INSIDEACTIVE and fires nothing. The third such tick is a no-op returning true. |
| Scenarios.UndefinedCallbackIsSkipped | button-state-machine.js:116-120 | A transition whose callback the button does not define changes state and fires nothing. |

## Left out

- The Impact module wrapper (`ig.module`, `.requires`, `.defines`) and `ig.Class.extend` (button-state-machine.js:10-17, 57) are engine plumbing with no behaviour of their own.
- The `{value, name}` enum objects (button-state-machine.js:19-36) are plain datatypes here. The names serve only for property lookup, and the values only for the comparison that `ButtonTypes.ValueIdentifiesInput` shows is identity.
- Callback lookup by property name (`this[stateDef[1]]`, button-state-machine.js:117) is a choice among the six callback names plus the set of names the button defines as functions. A custom table naming any other property is not modelled. The callbacks' own effects are foreign code and are not modelled. This includes the fact that `stateFunc()` is called without `this` bound.
- StateMachine.Step: a custom table with no row for the current state throws a TypeError at button-state-machine.js:105. This is a precondition (a row must exist whenever the input changed), not a modelled exception. `TickRuns.Run` asks for a closed table, meaning every valid target has a row.
- The hit test, mouse reads and host frame loop behind `isMouseInside`, `isEnabled` and `isMouseDown` (button-state-machine.js:139-141) are per-tick booleans in a `Sample`. Their defaults are not modelled.
- A caller replacing `ig.ButtonStateMachine.stateTable` or an instance's table between ticks is not modelled. Here the table is fixed at `init`.
