/** The host calling updateState once per frame: a sequence of sampled ticks
    and what the machine does over it. */
module TickRuns {
  import opened Wrappers
  import opened ButtonTypes
  import opened InputDerivation
  import opened StateMachine
  import DefaultTable

  /** The result of every tick, in order, starting from `m`. */
  function Run(m: Machine, samples: seq<Sample>, handlers: set<EventName>): (rs: seq<StepResult>)
    requires WellFormed(m)
    ensures |rs| == |samples|
    ensures forall k :: 0 <= k < |rs| ==>
      && rs[k].machine.table == m.table
      && WellFormed(rs[k].machine)
      && LatchConsistent(rs[k].machine)
      && (IsValidButtonState(m.currentState) ==> IsValidButtonState(rs[k].machine.currentState))
    decreases |samples|
  {
    if samples == [] then []
    else
      var r := Step(m, samples[0], handlers);
      [r] + Run(r.machine, samples[1..], handlers)
  }

  /** The machine just before tick k: `m` itself, or the machine after tick k-1. */
  function Before(m: Machine, rs: seq<StepResult>, k: nat): Machine
    requires k <= |rs|
  {
    if k == 0 then m else rs[k - 1].machine
  }

  /** Each tick of a run is one Step from the machine the previous tick left. */
  lemma {:induction false} RunIsStepwise(m: Machine, samples: seq<Sample>, handlers: set<EventName>)
    requires WellFormed(m)
    ensures var rs := Run(m, samples, handlers);
      forall k :: 0 <= k < |rs| ==> rs[k] == Step(Before(m, rs, k), samples[k], handlers)
    decreases |samples|
  {
    if samples != [] {
      var rs := Run(m, samples, handlers);
      var r := Step(m, samples[0], handlers);
      var rest := Run(r.machine, samples[1..], handlers);
      assert rs == [r] + rest;
      RunIsStepwise(r.machine, samples[1..], handlers);
      forall k | 0 < k < |rs|
        ensures rs[k] == Step(Before(m, rs, k), samples[k], handlers)
      {
        assert rs[k] == rest[k - 1];
        assert Before(r.machine, rest, k - 1) == Before(m, rs, k);
        assert samples[1..][k - 1] == samples[k];
      }
    }
  }

  /** Reference definition of the latch: the mouse-button level of the last
      enabled sample, or the initial latch when no sample was enabled. */
  function LatchAfter(initial: bool, samples: seq<Sample>): bool
  {
    if samples == [] then initial
    else if samples[|samples| - 1].enabled then samples[|samples| - 1].down
    else LatchAfter(initial, samples[..|samples| - 1])
  }

  /** After every tick, `mouseIsActive` is the mouse-button level of the last
      enabled sample so far; disabled ticks leave it alone. */
  lemma {:induction false} LatchFollowsLastEnabledSample(m: Machine, samples: seq<Sample>, handlers: set<EventName>, k: nat)
    requires WellFormed(m)
    requires k <= |samples|
    ensures Before(m, Run(m, samples, handlers), k).mouseIsActive == LatchAfter(m.mouseIsActive, samples[..k])
  {
    var rs := Run(m, samples, handlers);
    if k == 0 {
      assert samples[..0] == [];
    } else {
      LatchFollowsLastEnabledSample(m, samples, handlers, k - 1);
      RunIsStepwise(m, samples, handlers);
      assert samples[..k][..k - 1] == samples[..k - 1];
      assert samples[..k][k - 1] == samples[k - 1];
    }
  }

  /** The input tick k derived (and committed as lastInputState). */
  function InputAt(rs: seq<StepResult>, k: nat): InputState
    requires k < |rs|
  {
    rs[k].machine.lastInput
  }

  /** Tick k in terms of the derivation: the committed input and the new
      latch are what deriving sample k against the previous latch gives. */
  lemma TickDerives(m: Machine, samples: seq<Sample>, handlers: set<EventName>, rs: seq<StepResult>, k: nat)
    requires WellFormed(m) && rs == Run(m, samples, handlers)
    requires k < |samples|
    ensures var d := Derive(samples[k], Before(m, rs, k).mouseIsActive);
      && InputAt(rs, k) == d.input
      && Before(m, rs, k + 1).mouseIsActive == d.active
  {
    RunIsStepwise(m, samples, handlers);
    assert rs[k] == Step(Before(m, rs, k), samples[k], handlers);
  }

  /** A down edge is derived on tick k exactly when the button is enabled,
      the mouse is down and the latch was clear; an up edge exactly when the
      button is enabled, the mouse is up and the latch was set. */
  lemma EdgeAtTick(m: Machine, samples: seq<Sample>, handlers: set<EventName>, k: nat)
    requires WellFormed(m)
    requires k < |samples|
    ensures var rs := Run(m, samples, handlers);
      var was := Before(m, rs, k).mouseIsActive;
      && (IsDownEdge(InputAt(rs, k)) <==> samples[k].enabled && samples[k].down && !was)
      && (IsUpEdge(InputAt(rs, k)) <==> samples[k].enabled && !samples[k].down && was)
  {
    TickDerives(m, samples, handlers, Run(m, samples, handlers), k);
  }

  /** While no up edge is derived, a set latch stays set. */
  lemma {:induction false} LatchHeldWithoutUpEdge(m: Machine, samples: seq<Sample>, handlers: set<EventName>, rs: seq<StepResult>, i: nat, j: nat)
    requires WellFormed(m) && rs == Run(m, samples, handlers)
    requires i <= j <= |samples|
    requires Before(m, rs, i).mouseIsActive
    requires forall k :: i <= k < j ==> !IsUpEdge(InputAt(rs, k))
    ensures Before(m, rs, j).mouseIsActive
    decreases j
  {
    if i < j {
      LatchHeldWithoutUpEdge(m, samples, handlers, rs, i, j - 1);
      TickDerives(m, samples, handlers, rs, j - 1);
    }
  }

  /** While no down edge is derived, a clear latch stays clear. */
  lemma {:induction false} LatchClearWithoutDownEdge(m: Machine, samples: seq<Sample>, handlers: set<EventName>, rs: seq<StepResult>, i: nat, j: nat)
    requires WellFormed(m) && rs == Run(m, samples, handlers)
    requires i <= j <= |samples|
    requires !Before(m, rs, i).mouseIsActive
    requires forall k :: i <= k < j ==> !IsDownEdge(InputAt(rs, k))
    ensures !Before(m, rs, j).mouseIsActive
    decreases j
  {
    if i < j {
      LatchClearWithoutDownEdge(m, samples, handlers, rs, i, j - 1);
      TickDerives(m, samples, handlers, rs, j - 1);
    }
  }

  /** Edges alternate: between two down edges there is an up edge, and
      between two up edges there is a down edge. */
  lemma EdgesAlternate(m: Machine, samples: seq<Sample>, handlers: set<EventName>, i: nat, j: nat)
    requires WellFormed(m)
    requires i < j < |samples|
    ensures var rs := Run(m, samples, handlers);
      IsDownEdge(InputAt(rs, i)) && IsDownEdge(InputAt(rs, j)) ==>
        exists k :: i < k < j && IsUpEdge(InputAt(rs, k))
    ensures var rs := Run(m, samples, handlers);
      IsUpEdge(InputAt(rs, i)) && IsUpEdge(InputAt(rs, j)) ==>
        exists k :: i < k < j && IsDownEdge(InputAt(rs, k))
  {
    var rs := Run(m, samples, handlers);
    TickDerives(m, samples, handlers, rs, i);
    TickDerives(m, samples, handlers, rs, j);
    if IsDownEdge(InputAt(rs, i)) && IsDownEdge(InputAt(rs, j)) && forall k :: i < k < j ==> !IsUpEdge(InputAt(rs, k)) {
      LatchHeldWithoutUpEdge(m, samples, handlers, rs, i + 1, j);
      assert false;
    }
    if IsUpEdge(InputAt(rs, i)) && IsUpEdge(InputAt(rs, j)) && forall k :: i < k < j ==> !IsDownEdge(InputAt(rs, k)) {
      LatchClearWithoutDownEdge(m, samples, handlers, rs, i + 1, j);
      assert false;
    }
  }

  /** Starting with no press latched (as init does), the first edge of a run
      is a down edge: every up edge has a down edge before it. */
  lemma FirstEdgeIsDown(m: Machine, samples: seq<Sample>, handlers: set<EventName>, j: nat)
    requires WellFormed(m) && !m.mouseIsActive
    requires j < |samples|
    ensures var rs := Run(m, samples, handlers);
      IsUpEdge(InputAt(rs, j)) ==> exists k :: 0 <= k < j && IsDownEdge(InputAt(rs, k))
  {
    var rs := Run(m, samples, handlers);
    TickDerives(m, samples, handlers, rs, j);
    if IsUpEdge(InputAt(rs, j)) && forall k :: 0 <= k < j ==> !IsDownEdge(InputAt(rs, k)) {
      LatchClearWithoutDownEdge(m, samples, handlers, rs, 0, j);
      assert false;
    }
  }

  /** One tick from DISABLED under the default table stays DISABLED and
      fires nothing, whatever is sampled: the tick cannot derive ENABLED and
      every other cell of the DISABLED row is IGNORE. */
  lemma DisabledTickStaysDisabled(m: Machine, s: Sample, handlers: set<EventName>)
    requires m.table == DefaultTable.Default && m.currentState == ButtonState.Disabled
    ensures Step(m, s, handlers).machine.currentState == ButtonState.Disabled
    ensures Step(m, s, handlers).fired == None
  {
    DefaultTable.DisabledRowLeavesOnlyOnEnabled();
    DefaultTable.DefaultIsTotalOnDerivableInputs();
  }

  /** Under the default table DISABLED is absorbing: once disabled, the
      button stays disabled on every later tick and never fires a callback,
      even after isEnabled() turns true again. */
  lemma {:induction false} DisabledIsAbsorbing(m: Machine, samples: seq<Sample>, handlers: set<EventName>, k: nat)
    requires m.table == DefaultTable.Default && m.currentState == ButtonState.Disabled
    requires k < |samples|
    ensures WellFormed(m)
    ensures Run(m, samples, handlers)[k].machine.currentState == ButtonState.Disabled
    ensures Run(m, samples, handlers)[k].fired == None
  {
    DefaultTable.DefaultIsTotalOnDerivableInputs();
    var rs := Run(m, samples, handlers);
    RunIsStepwise(m, samples, handlers);
    if k > 0 {
      DisabledIsAbsorbing(m, samples, handlers, k - 1);
    }
    DisabledTickStaysDisabled(Before(m, rs, k), samples[k], handlers);
  }

  /** Sampling the same predicates again and again settles by the third
      tick, for any table: the second tick never derives an edge, and the
      third derives the same input as the second, so it is a no-op. */
  lemma RepeatedSampleSettles(m: Machine, s: Sample, handlers: set<EventName>)
    requires WellFormed(m)
    ensures var r1 := Step(m, s, handlers);
      var r2 := Step(r1.machine, s, handlers);
      && !IsDownEdge(r2.machine.lastInput) && !IsUpEdge(r2.machine.lastInput)
      && Step(r2.machine, s, handlers) == StepResult(r2.machine, true, None)
  {
    var r1 := Step(m, s, handlers);
    var r2 := Step(r1.machine, s, handlers);
    UnchangedInputIsNoOp(r2.machine, s, handlers);
  }

  /** With the default table the same sample acts at most once: on a
      latch-consistent machine the repeated tick neither changes the state
      nor fires a callback (after an edge it derives the level, which the
      table ignores). */
  lemma DefaultTableActsOnce(m: Machine, s: Sample, handlers: set<EventName>)
    requires m.table == DefaultTable.Default && IsValidButtonState(m.currentState)
    requires LatchConsistent(m)
    ensures var r1 := Step(m, s, handlers);
      var r2 := Step(r1.machine, s, handlers);
      r2.machine.currentState == r1.machine.currentState && r2.fired == None
  {
    DefaultTable.DefaultIsTotalOnDerivableInputs();
    var r1 := Step(m, s, handlers);
    var d1 := Derive(s, m.mouseIsActive);
    RederiveSettles(s, m.mouseIsActive);
    if d1.input == m.lastInput {
      UnchangedInputIsNoOp(m, s, handlers);
      UnchangedInputIsNoOp(r1.machine, s, handlers);
    } else if IsDownEdge(d1.input) || IsUpEdge(d1.input) {
      DefaultTable.LevelAfterEdgeIsIgnored(m.currentState, d1.input);
      assert r1.machine.currentState == DefaultTable.After(m.currentState, d1.input);
    } else {
      UnchangedInputIsNoOp(r1.machine, s, handlers);
    }
  }
}
