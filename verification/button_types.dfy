/** The enumerations of the button state machine: the discrete input of a
    tick, the button state, the callback names, and the transition table. */
module ButtonTypes {

  /** ig.INPUTSTATE: the discrete, edge-detected input condition of one tick.
      Invalid is the "nothing seen yet" sentinel the machine starts with. */
  datatype InputState =
    | Disabled
    | Enabled
    | MouseIn
    | MouseOut
    | MouseInDown
    | MouseOutDown
    | MouseInUp
    | MouseOutUp
    | Invalid

  /** ig.BUTTONSTATE. Ignore is a table target meaning "no change"; the
      machine never rests in it. */
  datatype ButtonState = Ignore | Disabled | Outside | Inside | InsideActive

  /** The callback names a table cell may carry (the owning button decides
      which of them are actually defined as functions). */
  datatype EventName = NoEvent | StartHover | EndHover | StartClick | EndClick | EndClickIgnore

  /** One table cell: the output button state and the callback to fire. */
  datatype Entry = Entry(next: ButtonState, event: EventName)

  /** stateTable[currentState][input]; a key that is absent is a missing entry. */
  type Table = map<ButtonState, map<InputState, Entry>>

  /** The numeric `value` each INPUTSTATE constant carries; updateState
      compares inputs through it. */
  function Value(i: InputState): nat
  {
    match i
    case Disabled => 0
    case Enabled => 1
    case MouseIn => 2
    case MouseOut => 3
    case MouseInDown => 4
    case MouseOutDown => 5
    case MouseInUp => 6
    case MouseOutUp => 7
    case Invalid => 255
  }

  /** The values are pairwise distinct, so comparing values is comparing inputs. */
  lemma ValueIdentifiesInput(a: InputState, b: InputState)
    ensures Value(a) == Value(b) <==> a == b
  {
  }

  /** isValidButtonState: every state except Ignore may become the current state. */
  function IsValidButtonState(s: ButtonState): (valid: bool)
    ensures valid <==> s != ButtonState.Ignore
  {
    || s == ButtonState.Disabled
    || s == Outside
    || s == Inside
    || s == InsideActive
  }

  /** The rising-edge inputs: the button went down on this tick. */
  predicate IsDownEdge(i: InputState)
  {
    i == MouseInDown || i == MouseOutDown
  }

  /** The falling-edge inputs: the button went up on this tick. */
  predicate IsUpEdge(i: InputState)
  {
    i == MouseInUp || i == MouseOutUp
  }

  /** The inputs that say the mouse is inside the hit area. */
  predicate IsInsideInput(i: InputState)
  {
    i == MouseIn || i == MouseInDown || i == MouseInUp
  }

  /** The level input an edge settles into once the press or release is
      latched: the same side of the hit area, no edge. */
  function LevelOf(i: InputState): (l: InputState)
    ensures !IsDownEdge(l) && !IsUpEdge(l)
    ensures IsInsideInput(l) <==> IsInsideInput(i)
    ensures l == MouseIn || l == MouseOut
  {
    if IsInsideInput(i) then MouseIn else MouseOut
  }
}
