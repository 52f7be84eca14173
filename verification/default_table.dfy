/** ig.ButtonStateMachine.stateTable: the transition table every instance
    uses unless it is given its own. */
module DefaultTable {
  import opened ButtonTypes
  import opened InputDerivation

  /** Rows are current states, columns are inputs. Only the DISABLED row has
      an ENABLED column. */
  const Default: Table := map[
    Outside := map[
      InputState.Disabled := Entry(ButtonState.Disabled, NoEvent),
      MouseIn := Entry(Inside, StartHover),
      MouseOut := Entry(Ignore, NoEvent),
      MouseInDown := Entry(InsideActive, StartClick),
      MouseOutDown := Entry(Ignore, NoEvent),
      MouseInUp := Entry(Inside, StartHover),
      MouseOutUp := Entry(Ignore, NoEvent)
    ],
    Inside := map[
      InputState.Disabled := Entry(ButtonState.Disabled, NoEvent),
      MouseIn := Entry(Ignore, NoEvent),
      MouseOut := Entry(Outside, EndHover),
      MouseInDown := Entry(InsideActive, StartClick),
      MouseOutDown := Entry(Outside, EndHover),
      MouseInUp := Entry(Ignore, NoEvent),
      MouseOutUp := Entry(Outside, EndHover)
    ],
    InsideActive := map[
      InputState.Disabled := Entry(ButtonState.Disabled, EndClickIgnore),
      MouseIn := Entry(Ignore, NoEvent),
      MouseOut := Entry(Ignore, NoEvent),
      MouseInDown := Entry(Ignore, NoEvent),
      MouseOutDown := Entry(Ignore, NoEvent),
      MouseInUp := Entry(Inside, EndClick),
      MouseOutUp := Entry(Outside, EndClickIgnore)
    ],
    ButtonState.Disabled := map[
      InputState.Disabled := Entry(Ignore, NoEvent),
      MouseIn := Entry(Ignore, NoEvent),
      MouseOut := Entry(Ignore, NoEvent),
      MouseInDown := Entry(Ignore, NoEvent),
      MouseOutDown := Entry(Ignore, NoEvent),
      MouseInUp := Entry(Ignore, NoEvent),
      MouseOutUp := Entry(Ignore, NoEvent),
      InputState.Enabled := Entry(Outside, NoEvent)
    ]
  ]

  /** The table has a row for exactly the valid button states, and every
      derivable input has a cell in every row: with this table a lookup never
      misses, so a rejected transition always means an IGNORE target. */
  lemma DefaultIsTotalOnDerivableInputs()
    ensures forall s :: s in Default <==> IsValidButtonState(s)
    ensures forall s, i :: s in Default && CanBeDerived(i) ==> i in Default[s]
    ensures forall s, i :: s in Default && i in Default[s] ==> CanBeDerived(i) || (s == ButtonState.Disabled && i == InputState.Enabled)
  {
  }

  /** In the DISABLED row only the ENABLED column names a real target. */
  lemma DisabledRowLeavesOnlyOnEnabled()
    ensures forall i :: i in Default[ButtonState.Disabled] ==>
      (IsValidButtonState(Default[ButtonState.Disabled][i].next) <==> i == InputState.Enabled)
  {
  }

  /** From every other state a DISABLED input disables the button. */
  lemma DisabledInputDisables()
    ensures forall s :: s in Default && s != ButtonState.Disabled ==>
      Default[s][InputState.Disabled].next == ButtonState.Disabled
  {
  }

  /** Which callback each real transition of the table names: a hover starts
      on entering INSIDE from OUTSIDE and ends on leaving INSIDE for OUTSIDE,
      a click starts exactly on entering INSIDEACTIVE, it ends (endClick) on
      going back to INSIDE and is abandoned (endClickIgnore) on leaving
      INSIDEACTIVE for anywhere else. */
  lemma DefaultEventsMatchTransitions()
    ensures forall s, i :: s in Default && i in Default[s] && IsValidButtonState(Default[s][i].next) ==>
      var e := Default[s][i];
      && (e.event == StartHover <==> s == Outside && e.next == Inside)
      && (e.event == EndHover <==> s == Inside && e.next == Outside)
      && (e.event == StartClick <==> e.next == InsideActive)
      && (e.event == EndClick <==> s == InsideActive && e.next == Inside)
      && (e.event == EndClickIgnore <==> s == InsideActive && e.next != Inside)
  {
  }

  /** The state the default table leaves the button in after input i from
      state q: the cell's target, or q itself when the target is IGNORE. */
  function After(q: ButtonState, i: InputState): ButtonState
    requires q in Default && i in Default[q]
  {
    if IsValidButtonState(Default[q][i].next) then Default[q][i].next else q
  }

  /** Whatever state an edge input leaves the button in, the level input that
      follows the edge is an IGNORE cell there. */
  lemma LevelAfterEdgeIsIgnored(q: ButtonState, e: InputState)
    requires IsValidButtonState(q)
    requires IsDownEdge(e) || IsUpEdge(e)
    ensures q in Default && e in Default[q]
    ensures After(q, e) in Default && LevelOf(e) in Default[After(q, e)]
    ensures Default[After(q, e)][LevelOf(e)].next == Ignore
  {
  }
}
