/** The stochastic state machine `FSM` of transitions_sample.py. The
    `transitions.Machine` the source attaches to the object is reduced to what
    the class uses of it: the name of the current state and the `to_<label>`
    moves, which exist for every label the machine was built with. */
module StateMachine {
  import opened Labels
  import opened Sums

  /** The fields of an `FSM` object at one moment. */
  datatype FsmState = FsmState(
    states: seq<Label>,
    stateIndex: map<Label, int>,
    transitionMatrix: seq<seq<real>>,
    terminalStates: set<Label>,
    current: Label,
    isTerminated: bool)

  /** Python's `xs[i]` on a list of length `n`: a negative index counts from
      the end; anything else outside the list raises IndexError. */
  function PyIndex(i: int, n: nat): (r: Option<nat>)
    ensures r.Some? <==> 0 <= i + n && i < n
    ensures r.Some? ==> r.value < n && (r.value == i || r.value == i + n)
  {
    if 0 <= i < n then Some(i)
    else if 0 <= i + n && i < 0 then Some(i + n)
    else None
  }

  /** `random.choices` assumes non-negative weights; the model asks it of
      every row. */
  predicate NonNegativeWeights(matrix: seq<seq<real>>)
  {
    forall i, k :: 0 <= i < |matrix| && 0 <= k < |matrix[i]| ==> matrix[i][k] >= 0.0
  }

  /** Lines 37-42 up to the draw: the weight row `trigger_transition` hands to
      `random.choices`, or the exception raised on the way, in the order the
      checks happen (dict lookup, list index, then the checks in
      `random.choices`: number of weights, empty population, total). */
  function StepRow(v: FsmState): (r: Result<seq<real>>)
    ensures v.current !in v.stateIndex ==> r == Failure(UnknownState)
    ensures v.current in v.stateIndex && PyIndex(v.stateIndex[v.current], |v.transitionMatrix|).None? ==>
      r == Failure(RowOutOfRange)
    ensures v.current in v.stateIndex && PyIndex(v.stateIndex[v.current], |v.transitionMatrix|).Some? ==>
      var row := v.transitionMatrix[PyIndex(v.stateIndex[v.current], |v.transitionMatrix|).value];
      (|row| != |v.states| ==> r == Failure(WeightCountMismatch))
      && (|row| == |v.states| == 0 ==> r == Failure(EmptyPopulation))
      && (|row| == |v.states| > 0 && RealSum(row) <= 0.0 ==> r == Failure(ZeroTotalWeight))
      && (|row| == |v.states| > 0 && RealSum(row) > 0.0 ==> r == Success(row))
    ensures r.Success? ==>
      r.value in v.transitionMatrix && |r.value| == |v.states| && RealSum(r.value) > 0.0
  {
    if v.current !in v.stateIndex then Failure(UnknownState)
    else match PyIndex(v.stateIndex[v.current], |v.transitionMatrix|)
      case None => Failure(RowOutOfRange)
      case Some(i) =>
        var row := v.transitionMatrix[i];
        if |row| != |v.states| then Failure(WeightCountMismatch)
        else if |v.states| == 0 then Failure(EmptyPopulation)
        else if RealSum(row) <= 0.0 then Failure(ZeroTotalWeight)
        else Success(row)
  }

  /** `next` is a label `trigger_transition` may return from `v`: a state whose
      weight in the current row is positive. */
  ghost predicate CanStep(v: FsmState, next: Label)
  {
    StepRow(v).Success?
    && exists k :: 0 <= k < |v.states| && StepRow(v).value[k] > 0.0 && v.states[k] == next
  }

  /** The current state after following `trace` from `v`. */
  function Last(v: FsmState, trace: seq<Label>): Label
  {
    if trace == [] then v.current else trace[|trace| - 1]
  }

  /** Each label of `trace` is a possible step from the state the previous one
      reached. */
  ghost predicate Path(v: FsmState, trace: seq<Label>)
  {
    trace == [] ||
    (Path(v, trace[..|trace| - 1]) && CanStep(v.(current := Last(v, trace[..|trace| - 1])), trace[|trace| - 1]))
  }

  /** With a positive total and non-negative weights some state can be drawn,
      so a step whose row passes the checks always has a successor. */
  lemma StepHasSuccessor(v: FsmState)
    requires NonNegativeWeights(v.transitionMatrix)
    requires StepRow(v).Success?
    ensures exists next :: CanStep(v, next)
  {
    var row := StepRow(v).value;
    assert forall k :: 0 <= k < |row| ==> row[k] >= 0.0;
    PositiveTotalHasPositiveWeight(row);
    var k :| 0 <= k < |row| && row[k] > 0.0;
    assert CanStep(v, v.states[k]);
  }

  /** A machine whose index map is the one `__init__` builds from distinct
      states, whose matrix is square, and whose current row has a positive
      total can always step. */
  lemma WellFormedCanStep(v: FsmState, i: int)
    requires Distinct(v.states) && v.stateIndex == IndexMap(v.states)
    requires |v.transitionMatrix| == |v.states|
    requires 0 <= i < |v.states| && v.current == v.states[i]
    requires |v.transitionMatrix[i]| == |v.states|
    ensures StepRow(v).Success? <==> RealSum(v.transitionMatrix[i]) > 0.0
    ensures StepRow(v).Success? ==> StepRow(v).value == v.transitionMatrix[i]
  {
    IndexMapOfDistinct(v.states);
  }

  /** The record `__getstate__` returns (lines 53-61). A record handed to
      `__setstate__` may lack the two keys read with `state.get`. */
  datatype Snapshot = Snapshot(
    states: seq<Label>,
    stateIndex: map<Label, int>,
    transitionMatrix: seq<seq<real>>,
    currentState: Label,
    initial: Label,
    terminalStates: Option<set<Label>>,
    isTerminated: Option<bool>)

  /** Lines 51-62. The object never gets an `initial` attribute, so the record
      names `states[0]`, which raises IndexError on an empty state list. */
  function Capture(v: FsmState): (r: Result<Snapshot>)
    ensures r.Failure? <==> v.states == []
    ensures r.Failure? ==> r.error == NoStates
    ensures r.Success? ==> r.value.initial == v.states[0]
    ensures r.Success? ==> (r.value.states == v.states && r.value.stateIndex == v.stateIndex
      && r.value.transitionMatrix == v.transitionMatrix)
    ensures r.Success? ==> (r.value.terminalStates == Some(v.terminalStates)
      && r.value.isTerminated == Some(v.isTerminated) && r.value.currentState == v.current)
  {
    if v.states == [] then Failure(NoStates)
    else Success(Snapshot(v.states, v.stateIndex, v.transitionMatrix, v.current,
      v.states[0], Some(v.terminalStates), Some(v.isTerminated)))
  }

  /** What `__setstate__` leaves behind: the fields, and the exception it
      raised, if any. */
  datatype Restoration = Restoration(fsm: FsmState, error: Option<Error>)

  /** Lines 64-82. The fields are copied (missing terminal states become an
      empty set, a missing flag `False`); the rebuilt machine starts in
      `initial`; the saved current state is then entered through its `to_`
      move, which exists only for the machine's states (the initial state is
      added to them by the machine), otherwise AttributeError. */
  function Restore(snap: Snapshot): (r: Restoration)
    ensures r.error.None? <==> snap.currentState == snap.initial || snap.currentState in snap.states
    ensures r.error.Some? ==> r.error.value == NoSuchTransition && r.fsm.current == snap.initial
    ensures r.error.None? ==> r.fsm.current == snap.currentState
    ensures r.fsm.states == snap.states && r.fsm.stateIndex == snap.stateIndex
      && r.fsm.transitionMatrix == snap.transitionMatrix
    ensures snap.terminalStates.None? ==> r.fsm.terminalStates == {}
    ensures snap.terminalStates.Some? ==> r.fsm.terminalStates == snap.terminalStates.value
    ensures r.fsm.isTerminated <==> snap.isTerminated == Some(true)
  {
    var terminal := if snap.terminalStates.Some? then snap.terminalStates.value else {};
    var flag := if snap.isTerminated.Some? then snap.isTerminated.value else false;
    var fields := FsmState(snap.states, snap.stateIndex, snap.transitionMatrix, terminal, snap.initial, flag);
    if snap.currentState == snap.initial then Restoration(fields, None)
    else if snap.currentState in snap.states then Restoration(fields.(current := snap.currentState), None)
    else Restoration(fields, Some(NoSuchTransition))
  }

  /** Pickling and unpickling reproduces every field exactly when the current
      state is one of the states; a current state outside them (an initial
      state the machine added at construction) is recorded, but `to_` of it
      does not exist after restoring, so unpickling fails. */
  lemma RoundTrip(v: FsmState)
    requires v.states != []
    ensures Capture(v).Success?
    ensures Restore(Capture(v).value).error.None? <==> v.current in v.states
    ensures v.current in v.states ==> Restore(Capture(v).value) == Restoration(v, None)
  {
    var snap := Capture(v).value;
    assert v.states[0] in v.states;
    var r := Restore(snap);
    if v.current in v.states {
      assert r.fsm == v;
    }
  }

  /** The demo runs at most this many steps (line 120). */
  const DemoSteps: nat := 5

  /** An `FSM` object. */
  class Fsm {
    var states: seq<Label>
    var stateIndex: map<Label, int>
    var transitionMatrix: seq<seq<real>>
    var terminalStates: set<Label>
    var current: Label
    var isTerminated: bool

    function Value(): FsmState
      reads this
    {
      FsmState(states, stateIndex, transitionMatrix, terminalStates, current, isTerminated)
    }

    /** Lines 10-26: the index map of the states, the machine placed in
        `initial`, and the class-level `is_terminated = False`. */
    constructor (states: seq<Label>, initial: Label, transitionMatrix: seq<seq<real>>, terminalStates: seq<Label>)
      ensures this.states == states && this.transitionMatrix == transitionMatrix
      ensures this.stateIndex == IndexMap(states)
      ensures forall x :: x in this.terminalStates <==> x in terminalStates
      ensures current == initial && !isTerminated
    {
      this.states := states;
      stateIndex := IndexMap(states);
      this.transitionMatrix := transitionMatrix;
      this.terminalStates := set x | x in terminalStates;
      current := initial;
      isTerminated := false;
    }

    /** Lines 36-49: draw the index of a state with positive weight in the
        current row and move there. The draw is a free choice among those
        indices. Only the current state changes, and nothing changes when an
        exception is raised. */
    method TriggerTransition() returns (r: Result<Label>)
      requires NonNegativeWeights(transitionMatrix)
      modifies this
      ensures r.Success? <==> StepRow(old(Value())).Success?
      ensures r.Failure? ==> r.error == StepRow(old(Value())).error && Value() == old(Value())
      ensures r.Success? ==> CanStep(old(Value()), r.value) && r.value in states
      ensures r.Success? ==> Value() == old(Value()).(current := r.value)
    {
      var step := StepRow(Value());
      if step.Failure? {
        return Failure(step.error);
      }
      var row := step.value;
      assert forall k :: 0 <= k < |row| ==> row[k] >= 0.0;
      PositiveTotalHasPositiveWeight(row);
      var nextIdx :| 0 <= nextIdx < |states| && row[nextIdx] > 0.0;
      var nextState := states[nextIdx];
      if nextState != current {
        current := nextState;
      }
      r := Success(nextState);
    }

    /** Lines 64-82, field by field. */
    method SetState(snap: Snapshot) returns (err: Option<Error>)
      modifies this
      ensures Restoration(Value(), err) == Restore(snap)
    {
      states := snap.states;
      stateIndex := snap.stateIndex;
      transitionMatrix := snap.transitionMatrix;
      terminalStates := if snap.terminalStates.Some? then snap.terminalStates.value else {};
      isTerminated := if snap.isTerminated.Some? then snap.isTerminated.value else false;
      current := snap.initial;
      err := None;
      if snap.currentState != current {
        if snap.currentState in states {
          current := snap.currentState;
        } else {
          err := Some(NoSuchTransition);
        }
      }
    }

    /** Lines 120-128: up to five steps; a step that returns a terminal state
        sets `is_terminated`, and the loop stops as soon as the flag is set.
        An exception from a step ends the run and is returned. */
    method RunDemo() returns (trace: seq<Label>, err: Option<Error>)
      requires NonNegativeWeights(transitionMatrix)
      modifies this
      ensures states == old(states) && stateIndex == old(stateIndex)
      ensures transitionMatrix == old(transitionMatrix) && terminalStates == old(terminalStates)
      ensures |trace| <= DemoSteps
      ensures Path(old(Value()), trace)
      ensures current == Last(old(Value()), trace)
      ensures forall i :: 0 <= i < |trace| - 1 ==> trace[i] !in terminalStates
      ensures isTerminated <==> old(isTerminated) || (trace != [] && trace[|trace| - 1] in terminalStates)
      ensures old(isTerminated) ==> |trace| <= 1
      ensures err.None? ==> isTerminated || |trace| == DemoSteps
      ensures err.Some? ==> |trace| < DemoSteps && StepRow(Value()).Failure? && err.value == StepRow(Value()).error
      ensures err.Some? ==> isTerminated == old(isTerminated) && forall i :: 0 <= i < |trace| ==> trace[i] !in terminalStates
      ensures err.None? ==> trace != []
    {
      ghost var v0 := Value();
      trace := [];
      err := None;
      var step := 0;
      while step < DemoSteps
        invariant 0 <= step <= DemoSteps && |trace| == step
        invariant Path(v0, trace)
        invariant Value() == v0.(current := Last(v0, trace))
        invariant forall i :: 0 <= i < |trace| ==> trace[i] !in terminalStates
        invariant v0.isTerminated ==> trace == []
      {
        var next := TriggerTransition();
        if next.Failure? {
          err := Some(next.error);
          assert isTerminated == v0.isTerminated && terminalStates == v0.terminalStates;
          return;
        }
        PathSnoc(v0, trace, next.value);
        trace := trace + [next.value];
        step := step + 1;
        if next.value in terminalStates {
          isTerminated := true;
        }
        if isTerminated {
          break;
        }
      }
    }
  }

  /** Extending a path by a possible step from where it ends. */
  lemma PathSnoc(v: FsmState, trace: seq<Label>, next: Label)
    requires Path(v, trace) && CanStep(v.(current := Last(v, trace)), next)
    ensures Path(v, trace + [next]) && Last(v, trace + [next]) == next
  {
    assert (trace + [next])[..|trace|] == trace;
  }
}
