/** The first half of updateState: turning the three per-tick predicates and
    the `mouseIsActive` latch into exactly one discrete input. */
module InputDerivation {
  import opened ButtonTypes

  /** What isEnabled(), isMouseInside() and isMouseDown() answered on one tick. */
  datatype Sample = Sample(enabled: bool, inside: bool, down: bool)

  /** The derived input and the new value of the `mouseIsActive` latch. */
  datatype Derived = Derived(input: InputState, active: bool)

  /** The inputs a tick can produce: neither ENABLED nor the INVALID sentinel. */
  predicate CanBeDerived(i: InputState)
  {
    i != InputState.Enabled && i != InputState.Invalid
  }

  /** Declarative description of one derivation: DISABLED exactly when not
      enabled, the inside family exactly when the mouse is inside, a down
      edge exactly on a press the latch has not seen, an up edge exactly on
      a release of a latched press, and the latch follows the mouse button
      on enabled ticks only. */
  ghost predicate DerivationSpec(s: Sample, active: bool, d: Derived)
  {
    && CanBeDerived(d.input)
    && (d.input == InputState.Disabled <==> !s.enabled)
    && (s.enabled ==> (IsInsideInput(d.input) <==> s.inside))
    && (IsDownEdge(d.input) <==> s.enabled && s.down && !active)
    && (IsUpEdge(d.input) <==> s.enabled && !s.down && active)
    && d.active == (if s.enabled then s.down else active)
  }

  /** Derivation of one tick's input, in the source's precedence order. */
  function Derive(s: Sample, active: bool): (d: Derived)
    ensures DerivationSpec(s, active, d)
    ensures !IsDownEdge(d.input) && !IsUpEdge(d.input) ==> d.active == active
    ensures IsDownEdge(d.input) ==> d.active
    ensures IsUpEdge(d.input) ==> !d.active
  {
    if !s.enabled then
      Derived(InputState.Disabled, active)
    else if s.inside then
      if s.down then
        if !active then Derived(MouseInDown, true) else Derived(MouseIn, active)
      else if active then Derived(MouseInUp, false)
      else Derived(MouseIn, active)
    else
      if s.down then
        if !active then Derived(MouseOutDown, true) else Derived(MouseOut, active)
      else if active then Derived(MouseOutUp, false)
      else Derived(MouseOut, active)
  }

  /** The declarative description admits exactly one derivation, so the
      contract of Derive determines it completely. */
  lemma DerivationSpecIsFunctional(s: Sample, active: bool, d: Derived)
    requires DerivationSpec(s, active, d)
    ensures d == Derive(s, active)
  {
  }

  /** A press held across two enabled ticks yields a down edge at most on
      the first: the second derives the level MOUSEIN or MOUSEOUT. */
  lemma HeldPressIsLevel(s1: Sample, s2: Sample, active: bool)
    requires s1.enabled && s1.down && s2.enabled && s2.down
    ensures var d2 := Derive(s2, Derive(s1, active).active);
      d2.input == (if s2.inside then MouseIn else MouseOut)
  {
  }

  /** Disabling does not reset the latch: a press held through a disabled
      tick does not produce a new down edge when the button is enabled again. */
  lemma DisabledTickKeepsPress(s1: Sample, s2: Sample, s3: Sample, active: bool)
    requires s1.enabled && s1.down && !s2.enabled && s3.enabled && s3.down
    ensures var d2 := Derive(s2, Derive(s1, active).active);
      !IsDownEdge(Derive(s3, d2.active).input)
  {
  }

  /** Deriving the same sample a second time, against the latch the first
      derivation left, yields no edge: an edge turns into its level and any
      other input repeats itself. */
  lemma RederiveSettles(s: Sample, active: bool)
    ensures var d1 := Derive(s, active);
      var d2 := Derive(s, d1.active);
      && d2.active == d1.active
      && d2.input == (if IsDownEdge(d1.input) || IsUpEdge(d1.input) then LevelOf(d1.input) else d1.input)
  {
  }
}
