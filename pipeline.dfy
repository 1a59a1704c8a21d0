/** The two halves together: a machine loaded from the configuration the
    estimator wrote moves only along transitions seen in the training
    sequences, and along every one of them. */
module Pipeline {
  import opened Labels
  import opened Sums
  import opened TransitionCounts
  import opened Calculator
  import opened StateMachine

  /** A machine whose states, index map and matrix are those the estimator
      computes from `sequences`, standing on a label of the corpus. Its weights
      are valid for `random.choices`; it can step exactly from labels that
      were followed by another label; and the labels it can step to are
      exactly the observed successors. */
  lemma EstimatedMachineSteps(sequences: Corpus, v: FsmState)
    requires v.states == AllStates(sequences) && v.stateIndex == IndexMap(v.states)
    requires |v.transitionMatrix| == |v.states|
    requires forall r :: 0 <= r < |v.states| ==>
      v.transitionMatrix[r] == Normalised(TransitionRow(sequences, v.states, r))
    requires Occurs(sequences, v.current)
    ensures v.current in v.states
    ensures NonNegativeWeights(v.transitionMatrix)
    ensures StepRow(v).Success? <==> IsSource(sequences, v.current)
    ensures forall next :: CanStep(v, next) <==> Observed(sequences, v.current, next)
  {
    var all := v.states;
    SortedIsDistinct(all);
    EstimatedWeightsNonNegative(sequences, v.states, v.transitionMatrix);
    var i :| 0 <= i < |all| && all[i] == v.current;
    WellFormedCanStep(v, i);
    EstimatedRowSteps(sequences, v, i);
    forall next ensures CanStep(v, next) <==> Observed(sequences, v.current, next) {
      StepsFollowObservations(sequences, v, i, next);
    }
  }

  lemma EstimatedWeightsNonNegative(sequences: Corpus, all: seq<Label>, matrix: seq<seq<real>>)
    requires |matrix| == |all|
    requires forall r :: 0 <= r < |all| ==> matrix[r] == Normalised(TransitionRow(sequences, all, r))
    ensures NonNegativeWeights(matrix)
  {
    forall r, k | 0 <= r < |matrix| && 0 <= k < |matrix[r]| ensures matrix[r][k] >= 0.0 {
      NormalisedNonNegative(TransitionRow(sequences, all, r));
    }
  }

  /** The estimated row of a label has a positive total exactly when the
      label was followed by another one. */
  lemma EstimatedRowSteps(sequences: Corpus, v: FsmState, i: int)
    requires v.states == AllStates(sequences)
    requires 0 <= i < |v.states| && v.current == v.states[i]
    requires |v.transitionMatrix| == |v.states|
    requires v.transitionMatrix[i] == Normalised(TransitionRow(sequences, v.states, i))
    ensures RealSum(v.transitionMatrix[i]) > 0.0 <==> IsSource(sequences, v.current)
  {
    var counts := TransitionRow(sequences, v.states, i);
    EstimatedRow(sequences, i);
    if !IsSource(sequences, v.current) {
      SumOfZeros(counts) by {
        forall j | 0 <= j < |counts| ensures counts[j] == 0 {
          NormalisedPositive(counts, j);
        }
      }
      ScaledSum(counts, 1.0);
    }
  }

  lemma StepsFollowObservations(sequences: Corpus, v: FsmState, i: int, next: Label)
    requires v.states == AllStates(sequences) && v.stateIndex == IndexMap(v.states)
    requires |v.transitionMatrix| == |v.states|
    requires forall r :: 0 <= r < |v.states| ==>
      v.transitionMatrix[r] == Normalised(TransitionRow(sequences, v.states, r))
    requires 0 <= i < |v.states| && v.current == v.states[i]
    requires StepRow(v).Success? <==> IsSource(sequences, v.current)
    requires StepRow(v).Success? ==> StepRow(v).value == v.transitionMatrix[i]
    ensures CanStep(v, next) <==> Observed(sequences, v.current, next)
  {
    var all := v.states;
    var counts := TransitionRow(sequences, all, i);
    TransitionsPositiveIffObserved(sequences, v.current, next);
    if CanStep(v, next) {
      var k :| 0 <= k < |all| && StepRow(v).value[k] > 0.0 && all[k] == next;
      NormalisedPositive(counts, k);
    }
    if Observed(sequences, v.current, next) {
      var k, p :| 0 <= k < |sequences| && 0 <= p < |sequences[k]| - 1
        && sequences[k][p] == v.current && sequences[k][p + 1] == next;
      assert IsSource(sequences, v.current);
      assert Occurs(sequences, next) by {
        assert sequences[k][p + 1] in sequences[k];
      }
      var j :| 0 <= j < |all| && all[j] == next;
      NormalisedPositive(counts, j);
      assert CanStep(v, next);
    }
  }
}
