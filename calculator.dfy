/** `ProbabilityCalculator` in calculator_build_json.py and the selection of
    the configuration fields at the end of `integration`: from observed label
    sequences to the sorted state list, the transition matrix, the initial and
    final distributions, the chosen initial state and the terminal states. */
module Calculator {
  import opened Labels
  import opened Sums
  import opened TransitionCounts
  import opened Distributions

  /** Label `x` appears in some sequence of the corpus. */
  ghost predicate Occurs(corpus: Corpus, x: Label)
  {
    exists k :: 0 <= k < |corpus| && x in corpus[k]
  }

  lemma OccursSnoc(corpus: Corpus, x: Label)
    requires corpus != []
    ensures Occurs(corpus, x) <==> Occurs(corpus[..|corpus| - 1], x) || x in corpus[|corpus| - 1]
  {
    var init := corpus[..|corpus| - 1];
    if Occurs(init, x) {
      var k :| 0 <= k < |init| && x in init[k];
      assert corpus[k] == init[k];
    }
    if Occurs(corpus, x) && x !in corpus[|corpus| - 1] {
      var k :| 0 <= k < |corpus| && x in corpus[k];
      assert init[k] == corpus[k];
    }
  }

  /** Line 43: `sorted({st for seq in sequences for st in seq})`, built by
      inserting the labels of each sequence into a sorted, duplicate-free list. */
  function AllStates(sequences: Corpus): (r: seq<Label>)
    ensures StrictlySorted(r)
    ensures forall x :: x in r <==> Occurs(sequences, x)
  {
    if sequences == [] then []
    else
      var r := InsertAll(sequences[|sequences| - 1], AllStates(sequences[..|sequences| - 1]));
      assert forall x :: x in r <==> Occurs(sequences, x) by {
        forall x ensures x in r <==> Occurs(sequences, x) {
          OccursSnoc(sequences, x);
        }
      }
      r
  }

  /** The state list depends only on which labels occur: it is the unique
      sorted enumeration of that set. */
  lemma AllStatesDeterminedByLabels(c1: Corpus, c2: Corpus)
    requires forall x :: Occurs(c1, x) <==> Occurs(c2, x)
    ensures AllStates(c1) == AllStates(c2)
  {
    SortedUnique(AllStates(c1), AllStates(c2));
  }

  /** Reordering the sequences of the corpus does not change the state list. */
  lemma AllStatesPermutationInvariant(c1: Corpus, c2: Corpus)
    requires multiset(c1) == multiset(c2)
    ensures AllStates(c1) == AllStates(c2)
  {
    forall x | Occurs(c1, x) ensures Occurs(c2, x) {
      OccursInPermutation(c1, c2, x);
    }
    forall x | Occurs(c2, x) ensures Occurs(c1, x) {
      OccursInPermutation(c2, c1, x);
    }
    AllStatesDeterminedByLabels(c1, c2);
  }

  lemma OccursInPermutation(c1: Corpus, c2: Corpus, x: Label)
    requires multiset(c1) == multiset(c2) && Occurs(c1, x)
    ensures Occurs(c2, x)
  {
    var k :| 0 <= k < |c1| && x in c1[k];
    assert c1[k] in multiset(c1);
    assert c1[k] in c2;
    var m :| 0 <= m < |c2| && c2[m] == c1[k];
  }

  /** No row is empty; `seq[0]` and `seq[-1]` raise IndexError otherwise. */
  predicate NoEmptySequence(sequences: Corpus)
  {
    forall k :: 0 <= k < |sequences| ==> sequences[k] != []
  }

  /** `seq[0] for seq in sequences` */
  function Firsts(sequences: Corpus): (r: seq<Label>)
    requires NoEmptySequence(sequences)
    ensures |r| == |sequences|
  {
    seq(|sequences|, k requires 0 <= k < |sequences| => sequences[k][0])
  }

  /** `seq[-1] for seq in sequences` */
  function Lasts(sequences: Corpus): (r: seq<Label>)
    requires NoEmptySequence(sequences)
    ensures |r| == |sequences|
  {
    seq(|sequences|, k requires 0 <= k < |sequences| => sequences[k][|sequences[k]| - 1])
  }

  /** Number of sequences that start with `x`. */
  function StartCount(sequences: Corpus, x: Label): nat
    requires NoEmptySequence(sequences)
  {
    Occurrences(Firsts(sequences), x)
  }

  /** Number of sequences that end with `x`. */
  function EndCount(sequences: Corpus, x: Label): nat
    requires NoEmptySequence(sequences)
  {
    Occurrences(Lasts(sequences), x)
  }

  /** Lines 27-30: the empirical distribution of first labels. */
  function InitialStates(sequences: Corpus): (d: seq<Entry>)
    requires NoEmptySequence(sequences)
    ensures |d| <= |sequences|
    ensures Distinct(Keys(d))
    ensures Keys(d) == FirstSeen(Firsts(sequences))
    ensures forall x :: x in Keys(d) <==> exists k :: 0 <= k < |sequences| && sequences[k][0] == x
    ensures forall k :: 0 <= k < |d| ==>
      d[k].prob == StartCount(sequences, d[k].state) as real / |sequences| as real
    ensures sequences != [] ==> RealSum(Probs(d)) == 1.0
  {
    var firsts := Firsts(sequences);
    FrequenciesEntries(firsts);
    FrequenciesSumToOne(firsts);
    assert forall x :: x in firsts <==> exists k :: 0 <= k < |sequences| && sequences[k][0] == x by {
      forall x | x in firsts ensures exists k :: 0 <= k < |sequences| && sequences[k][0] == x {
        var k :| 0 <= k < |firsts| && firsts[k] == x;
      }
      forall x | exists k :: 0 <= k < |sequences| && sequences[k][0] == x ensures x in firsts {
        var k :| 0 <= k < |sequences| && sequences[k][0] == x;
        assert firsts[k] == x;
      }
    }
    Frequencies(firsts)
  }

  /** The empirical distribution of last labels that lines 33-39 build. */
  function FinalStates(sequences: Corpus): (d: seq<Entry>)
    requires NoEmptySequence(sequences)
    ensures |d| <= |sequences|
    ensures Distinct(Keys(d))
    ensures Keys(d) == FirstSeen(Lasts(sequences))
    ensures forall x :: x in Keys(d) <==>
      exists k :: 0 <= k < |sequences| && sequences[k][|sequences[k]| - 1] == x
    ensures forall k :: 0 <= k < |d| ==>
      d[k].prob == EndCount(sequences, d[k].state) as real / |sequences| as real
    ensures sequences != [] ==> RealSum(Probs(d)) == 1.0
  {
    var lasts := Lasts(sequences);
    FrequenciesEntries(lasts);
    FrequenciesSumToOne(lasts);
    assert forall x :: x in lasts <==> exists k :: 0 <= k < |sequences| && sequences[k][|sequences[k]| - 1] == x by {
      forall x | x in lasts ensures exists k :: 0 <= k < |sequences| && sequences[k][|sequences[k]| - 1] == x {
        var k :| 0 <= k < |lasts| && lasts[k] == x;
      }
      forall x | exists k :: 0 <= k < |sequences| && sequences[k][|sequences[k]| - 1] == x ensures x in lasts {
        var k :| 0 <= k < |sequences| && sequences[k][|sequences[k]| - 1] == x;
        assert lasts[k] == x;
      }
    }
    Frequencies(lasts)
  }

  /** Lines 33-39: `final_states` is filled one counter item at a time, each
      key getting its count divided by the number of sequences. */
  method CalculateFinalStates(sequences: Corpus) returns (finalStates: seq<Entry>)
    requires NoEmptySequence(sequences)
    ensures finalStates == FinalStates(sequences)
  {
    var lasts := Lasts(sequences);
    var keys := FirstSeen(lasts);
    var totalSequences := |sequences|;
    finalStates := [];
    var k := 0;
    while k < |keys|
      invariant 0 <= k <= |keys|
      invariant finalStates == Tabulate(lasts, keys[..k], totalSequences)
    {
      var state := keys[k];
      var count := Occurrences(lasts, state);
      assert state !in keys[..k];
      PutNew(finalStates, state, count as real / totalSequences as real);
      finalStates := Put(finalStates, state, count as real / totalSequences as real);
      assert keys[..k + 1][..k] == keys[..k];
      k := k + 1;
    }
    assert keys[..k] == keys;
    assert finalStates == Frequencies(lasts);
  }

  /** Row `i` of the transition counts, by label: how often `all[i]` is
      immediately followed by each `all[j]`. */
  function TransitionRow(sequences: Corpus, all: seq<Label>, i: int): (row: seq<nat>)
    requires 0 <= i < |all|
    ensures |row| == |all|
  {
    seq(|all|, j requires 0 <= j < |all| => Transitions(sequences, all[i], all[j]))
  }

  /** Row `i` of the estimated matrix is all zero exactly when `all_states[i]`
      was never followed by another label; otherwise its entries lie in [0, 1]
      and add up to exactly 1. */
  lemma EstimatedRow(sequences: Corpus, i: int)
    requires 0 <= i < |AllStates(sequences)|
    ensures |Normalised(TransitionRow(sequences, AllStates(sequences), i))| == |AllStates(sequences)|
    ensures !IsSource(sequences, AllStates(sequences)[i]) ==>
      forall j :: 0 <= j < |AllStates(sequences)| ==> Normalised(TransitionRow(sequences, AllStates(sequences), i))[j] == 0.0
    ensures IsSource(sequences, AllStates(sequences)[i]) ==>
      RealSum(Normalised(TransitionRow(sequences, AllStates(sequences), i))) == 1.0
    ensures IsSource(sequences, AllStates(sequences)[i]) ==>
      forall j :: 0 <= j < |AllStates(sequences)| ==> 0.0 <= Normalised(TransitionRow(sequences, AllStates(sequences), i))[j] <= 1.0
  {
    var all := AllStates(sequences);
    var row := TransitionRow(sequences, all, i);
    if IsSource(sequences, all[i]) {
      var k, p :| 0 <= k < |sequences| && 0 <= p < |sequences[k]| - 1 && sequences[k][p] == all[i];
      var b := sequences[k][p + 1];
      assert Occurs(sequences, b);
      var j :| 0 <= j < |all| && all[j] == b;
      ObservedPairCounted(sequences, k, p);
      ElementAtMostSum(row, j);
    } else {
      forall j | 0 <= j < |all| ensures row[j] == 0 {
        UnobservedSourceNotCounted(sequences, all[i], all[j]);
      }
      SumOfZeros(row);
    }
    NormalisedRow(row);
  }

  /** On sorted (hence distinct) labels, the count row the index map selects
      is the row of label counts. */
  lemma CountRowIsTransitionRow(sequences: Corpus, all: seq<Label>, i: int)
    requires Distinct(all) && 0 <= i < |all|
    requires Covers(sequences, IndexMap(all))
    ensures CountRow(sequences, IndexMap(all), i) == TransitionRow(sequences, all, i)
  {
    var idx := IndexMap(all);
    IndexMapOfDistinct(all);
    forall j | 0 <= j < |all|
      ensures CountRow(sequences, idx, i)[j] == TransitionRow(sequences, all, i)[j]
    {
      PairCountIsTransitions(sequences, idx, i, j, all[i], all[j]);
    }
  }

  /** The result of `analyze_sequences`. */
  datatype Analysis = Analysis(
    transitionMatrix: seq<seq<real>>,
    initialStates: seq<Entry>,
    finalStates: seq<Entry>,
    allStates: seq<Label>,
    stateIdx: map<Label, int>)

  /** Lines 42-56. The transition matrix is computed first; an empty sequence
      then makes `calculate_initial_states` raise IndexError. */
  method AnalyzeSequences(sequences: Corpus) returns (r: Result<Analysis>)
    ensures r.Failure? <==> !NoEmptySequence(sequences)
    ensures r.Failure? ==> r.error == EmptySequence
    ensures r.Success? ==> r.value.allStates == AllStates(sequences)
    ensures r.Success? ==> r.value.stateIdx == IndexMap(AllStates(sequences))
    ensures r.Success? ==> |r.value.transitionMatrix| == |AllStates(sequences)|
    ensures r.Success? ==> forall i :: 0 <= i < |AllStates(sequences)| ==>
      r.value.transitionMatrix[i] == Normalised(TransitionRow(sequences, AllStates(sequences), i))
    ensures r.Success? ==> r.value.initialStates == InitialStates(sequences)
    ensures r.Success? ==> r.value.finalStates == FinalStates(sequences)
  {
    var allStates := AllStates(sequences);
    var stateIdx := IndexMap(allStates);
    SortedIsDistinct(allStates);
    IndexMapOfDistinct(allStates);
    assert Covers(sequences, stateIdx) by {
      forall k, p | 0 <= k < |sequences| && 0 <= p < |sequences[k]| ensures sequences[k][p] in stateIdx {
        assert Occurs(sequences, sequences[k][p]);
      }
    }
    var transitionMatrix := CalculateTransitionMatrix(sequences, stateIdx);
    forall i | 0 <= i < |allStates|
      ensures transitionMatrix[i] == Normalised(TransitionRow(sequences, allStates, i))
    {
      CountRowIsTransitionRow(sequences, allStates, i);
    }
    if !NoEmptySequence(sequences) {
      return Failure(EmptySequence);
    }
    var initialStates := InitialStates(sequences);
    var finalStates := CalculateFinalStates(sequences);
    r := Success(Analysis(transitionMatrix, initialStates, finalStates, allStates, stateIdx));
  }

  /** The configuration record written to config.json. */
  datatype Config = Config(
    states: seq<Label>,
    initial: Label,
    transitionMatrix: seq<seq<real>>,
    terminalStates: seq<Label>)

  /** Lines 77-78 and the record of lines 82-86: the initial state is the
      first most probable key of the initial distribution (`max` raises on an
      empty one), the terminal states are the keys of the final distribution. */
  function ChooseConfig(a: Analysis): (r: Result<Config>)
    ensures r.Failure? <==> a.initialStates == []
    ensures r.Failure? ==> r.error == EmptyCorpus
    ensures r.Success? ==> r.value.states == a.allStates && r.value.transitionMatrix == a.transitionMatrix
    ensures r.Success? ==> r.value.terminalStates == Keys(a.finalStates)
    ensures r.Success? ==>
      exists b :: (0 <= b < |a.initialStates| && a.initialStates[b].state == r.value.initial
        && (forall k :: 0 <= k < |a.initialStates| ==> a.initialStates[k].prob <= a.initialStates[b].prob)
        && (forall k :: 0 <= k < b ==> a.initialStates[k].prob < a.initialStates[b].prob))
  {
    match MostLikely(a.initialStates)
    case Failure(e) => Failure(e)
    case Success(initial) => Success(Config(a.allStates, initial, a.transitionMatrix, Keys(a.finalStates)))
  }

  /** The initial state `max` picks is a first label of the corpus, and no
      label starts more sequences. Among the labels that start the most
      sequences it is the one that starts the earliest sequence: every first
      label seen before it starts strictly fewer. */
  lemma ChosenInitialIsMostFrequent(sequences: Corpus, initial: Label)
    requires NoEmptySequence(sequences)
    requires MostLikely(InitialStates(sequences)) == Success(initial)
    ensures exists k :: 0 <= k < |sequences| && sequences[k][0] == initial
    ensures forall k :: 0 <= k < |sequences| ==> StartCount(sequences, sequences[k][0]) <= StartCount(sequences, initial)
    ensures exists b :: (0 <= b < |FirstSeen(Firsts(sequences))| && FirstSeen(Firsts(sequences))[b] == initial
      && forall k :: 0 <= k < b ==> StartCount(sequences, FirstSeen(Firsts(sequences))[k]) < StartCount(sequences, initial))
  {
    var d := InitialStates(sequences);
    var order := FirstSeen(Firsts(sequences));
    var b := ChosenEntry(d, initial);
    assert Keys(d)[b] == initial;
    assert initial in Keys(d);
    forall k | 0 <= k < |sequences| ensures StartCount(sequences, sequences[k][0]) <= StartCount(sequences, initial) {
      StartCountBelowChosen(sequences, d, b, k);
    }
    forall k | 0 <= k < b ensures StartCount(sequences, order[k]) < StartCount(sequences, initial) {
      assert order[k] == Keys(d)[k] == d[k].state;
      FractionStrictlyMonotone(StartCount(sequences, order[k]), StartCount(sequences, initial), |sequences| as real);
    }
    assert order[b] == initial;
  }

  /** The position of the entry `max` picked. */
  lemma ChosenEntry(d: seq<Entry>, initial: Label) returns (b: int)
    requires MostLikely(d) == Success(initial)
    ensures 0 <= b < |d| && d[b].state == initial
    ensures forall k :: 0 <= k < |d| ==> d[k].prob <= d[b].prob
    ensures forall k :: 0 <= k < b ==> d[k].prob < d[b].prob
  {
    b :| 0 <= b < |d| && d[b].state == initial
      && (forall k :: 0 <= k < |d| ==> d[k].prob <= d[b].prob)
      && (forall k :: 0 <= k < b ==> d[k].prob < d[b].prob);
  }

  lemma StartCountBelowChosen(sequences: Corpus, d: seq<Entry>, b: int, k: int)
    requires NoEmptySequence(sequences) && d == InitialStates(sequences)
    requires 0 <= b < |d| && forall j :: 0 <= j < |d| ==> d[j].prob <= d[b].prob
    requires 0 <= k < |sequences|
    ensures StartCount(sequences, sequences[k][0]) <= StartCount(sequences, d[b].state)
  {
    var x := sequences[k][0];
    assert x in Keys(d);
    var j :| 0 <= j < |d| && Keys(d)[j] == x;
    FractionMonotone(StartCount(sequences, x), StartCount(sequences, d[b].state), |sequences| as real);
  }

  lemma FractionMonotone(a: nat, b: nat, t: real)
    requires t > 0.0
    ensures a as real / t <= b as real / t ==> a <= b
  {
  }

  lemma FractionStrictlyMonotone(a: nat, b: nat, t: real)
    requires t > 0.0
    ensures a as real / t < b as real / t ==> a < b
  {
  }

  /** `integration` without its file handling: analyse the sequences read from
      the CSV file and choose the fields of the configuration. */
  method Integration(sequences: Corpus) returns (r: Result<Config>)
    ensures !NoEmptySequence(sequences) ==> r == Failure(EmptySequence)
    ensures sequences == [] ==> r == Failure(EmptyCorpus)
    ensures r.Success? <==> sequences != [] && NoEmptySequence(sequences)
    ensures r.Success? ==> StrictlySorted(r.value.states)
    ensures r.Success? ==> forall x :: x in r.value.states <==> Occurs(sequences, x)
    ensures r.Success? ==> |r.value.transitionMatrix| == |r.value.states|
    ensures r.Success? ==> forall i :: 0 <= i < |r.value.states| ==>
      r.value.transitionMatrix[i] == Normalised(TransitionRow(sequences, r.value.states, i))
    ensures r.Success? ==> exists k :: 0 <= k < |sequences| && sequences[k][0] == r.value.initial
    ensures r.Success? ==> forall k :: 0 <= k < |sequences| ==>
      StartCount(sequences, sequences[k][0]) <= StartCount(sequences, r.value.initial)
    ensures r.Success? ==> exists b :: (0 <= b < |FirstSeen(Firsts(sequences))|
      && FirstSeen(Firsts(sequences))[b] == r.value.initial
      && forall k :: 0 <= k < b ==>
        StartCount(sequences, FirstSeen(Firsts(sequences))[k]) < StartCount(sequences, r.value.initial))
    ensures r.Success? ==> r.value.terminalStates == FirstSeen(Lasts(sequences))
  {
    var analysis := AnalyzeSequences(sequences);
    if analysis.Failure? {
      return Failure(analysis.error);
    }
    var a := analysis.value;
    if sequences != [] {
      assert sequences[0][0] in Keys(a.initialStates);
    }
    r := ChooseConfig(a);
    if r.Success? {
      ChosenInitialIsMostFrequent(sequences, r.value.initial);
    }
  }
}
