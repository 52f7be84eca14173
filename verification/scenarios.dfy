/** Concrete tick sequences on a button that uses the default table and
    defines every callback. */
module Scenarios {
  import opened Wrappers
  import opened ButtonTypes
  import opened InputDerivation
  import opened StateMachine

  /** A button that defines every callback as a function. */
  const AllHandlers: set<EventName> := {NoEvent, StartHover, EndHover, StartClick, EndClick, EndClickIgnore}

  /** Hover, press and release inside the button: INSIDE with startHover,
      then INSIDEACTIVE with startClick, then INSIDE with endClick. */
  lemma HoverPressRelease()
    ensures var r1 := Step(Init(None), Sample(true, true, false), AllHandlers);
      var r2 := Step(r1.machine, Sample(true, true, true), AllHandlers);
      var r3 := Step(r2.machine, Sample(true, true, false), AllHandlers);
      && r1.ok && r1.machine.currentState == Inside && r1.fired == Some(StartHover)
      && r2.ok && r2.machine.currentState == InsideActive && r2.fired == Some(StartClick)
      && r3.ok && r3.machine.currentState == Inside && r3.fired == Some(EndClick)
  {
  }

  /** Pressing inside, dragging out while held, then releasing outside: the
      drag derives MOUSEOUT, whose cell is IGNORE, so the tick is rejected
      and the button stays INSIDEACTIVE; the release outside then abandons
      the click (OUTSIDE with endClickIgnore). */
  lemma DragOutThenRelease()
    ensures var r1 := Step(Init(None), Sample(true, true, true), AllHandlers);
      var r2 := Step(r1.machine, Sample(true, false, true), AllHandlers);
      var r3 := Step(r2.machine, Sample(true, false, false), AllHandlers);
      && r1.ok && r1.machine.currentState == InsideActive && r1.fired == Some(StartClick)
      && !r2.ok && r2.machine.lastInput == MouseOut && r2.machine.currentState == InsideActive && r2.fired == None
      && r3.ok && r3.machine.currentState == Outside && r3.fired == Some(EndClickIgnore)
  {
  }

  /** Disabling a pressed button abandons the click (DISABLED with
      endClickIgnore); enabling it again, still pressed, leaves it DISABLED
      with no callback, because no tick ever derives ENABLED. */
  lemma DisableWhilePressed()
    ensures var r1 := Step(Init(None), Sample(true, true, true), AllHandlers);
      var r2 := Step(r1.machine, Sample(false, true, true), AllHandlers);
      var r3 := Step(r2.machine, Sample(true, true, true), AllHandlers);
      && r1.machine.currentState == InsideActive
      && r2.ok && r2.machine.currentState == ButtonState.Disabled && r2.fired == Some(EndClickIgnore)
      && !r3.ok && r3.machine.currentState == ButtonState.Disabled && r3.fired == None
      && r3.machine.lastInput == MouseIn
  {
  }

  /** Callbacks the button does not define are skipped: the same hover moves
      the state but fires nothing. */
  lemma UndefinedCallbackIsSkipped()
    ensures var r := Step(Init(None), Sample(true, true, false), {});
      r.ok && r.machine.currentState == Inside && r.fired == None
  {
  }

  /** Holding a press inside for a second tick is not a no-op: it derives the
      level MOUSEIN, whose INSIDEACTIVE cell is IGNORE, so updateState returns
      false and commits MOUSEIN while keeping the state and firing nothing.
      The third such tick is a true no-op. */
  lemma HeldPressSecondTickRejected()
    ensures var r1 := Step(Init(None), Sample(true, true, true), AllHandlers);
      var r2 := Step(r1.machine, Sample(true, true, true), AllHandlers);
      var r3 := Step(r2.machine, Sample(true, true, true), AllHandlers);
      && r1.ok && r1.machine.lastInput == MouseInDown && r1.fired == Some(StartClick)
      && !r2.ok && r2.machine.lastInput == MouseIn
      && r2.machine.currentState == InsideActive && r2.fired == None
      && r3 == StepResult(r2.machine, true, None)
  {
  }
}
