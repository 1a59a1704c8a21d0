# Markov-chain estimator and stochastic state machine

This project models two pieces of a small Python repository.

- **The estimator.** `ProbabilityCalculator` in `calculator_build_json.py` turns observed label sequences into four things:
  - the sorted list of all state labels;
  - an index map from each label to its position;
  - a row-normalised transition matrix estimated from adjacent pairs;
  - the empirical distributions of first and last labels.

  `integration` then picks the most frequent first label as `initial` and the keys of the last-label distribution as `terminal_states`.
- **The state machine.** The `FSM` class in `transitions_sample.py` holds those fields, a current state and an `is_terminated` flag. Each step draws the next state from the current row of the matrix. The object can be pickled and unpickled through `__getstate__` / `__setstate__`. The demo loop takes at most five steps and stops once a terminal state is returned.

Modules:
- `Labels`: labels and Python's string order, the sorted duplicate-free insertion behind `sorted(set(...))`, the `{s: i for i, s in enumerate(...)}` index map, and the exception kinds as `Result` errors.
- `Sums`: sums of counts and of probabilities.
- `TransitionCounts`: pair counting, the in-place counting method over an `array2`, and row normalisation.
- `Distributions`: dicts as insertion-ordered entry lists, `Counter`, and `max(d, key=d.get)`.
- `Calculator`: `analyze_sequences` and the configuration chosen in `integration`.
- `StateMachine`: the `Fsm` class, its snapshot record and the demo loop.
- `Pipeline`: what the estimated configuration guarantees a machine loaded from it.

Probabilities are Dafny `real`s, so row sums and distribution sums are exactly 1. Python dicts keep insertion order, and that order decides both `list(d.keys())` and the key `max` returns. A dict is therefore an ordered list of `Entry` values.

## Model

| member | source | states |
|---|---|---|
| `Labels.Insert` | calculator_build_json.py:43 | inserting a label into a strictly increasing list keeps it strictly increasing and adds exactly that label |
| `Labels.InsertAll` | calculator_build_json.py:43 | inserting all labels of a sequence gives a strictly increasing list of exactly the old and the new labels |
| `Labels.SortedUnique` | calculator_build_json.py:43 | two strictly increasing lists with the same elements are equal, so the sorted enumeration of a set is unique |
| `Labels.IndexMap` | calculator_build_json.py:44 | the keys are exactly the labels of the list; each label maps to a position holding that label; a later duplicate overwrites an earlier one |
| `Labels.IndexMapOfDistinct` | transitions_sample.py:18 | on distinct labels, `state_index[states[i]] == i` for every i, and there are as many keys as states |
| `Labels.LexTotal` | calculator_build_json.py:43 | Python's string `<` is total on distinct strings |
| `Labels.LexTransitive` | calculator_build_json.py:43 | Python's string `<` is transitive |
| `Sums.ScaledSum` | calculator_build_json.py:21-23 | multiplying every count by `inv` multiplies the row total by `inv` |
| `Sums.PositiveTotalHasPositiveWeight` | transitions_sample.py:39-42 | non-negative weights with a positive total contain a positive weight, so `random.choices` has something to draw |
| `TransitionCounts.CalculateTransitionMatrix` | calculator_build_json.py:11-24 | the result is n x n; row i is count row i normalised, and `counts[i][j]` is the number of adjacent pairs whose indices are i then j |
| `TransitionCounts.NormalisedRow` | calculator_build_json.py:20-23 | a row with total 0 stays all zero; any other row has entries in [0, 1] that sum to exactly 1 |
| `TransitionCounts.NormalisedNonNegative` | calculator_build_json.py:22-23 | no normalised entry is negative |
| `TransitionCounts.NormalisedPositive` | calculator_build_json.py:22-23 | a normalised entry is positive exactly when its count is positive |
| `TransitionCounts.PairCountIsTransitions` | calculator_build_json.py:15-17 | when indices i and j stand for labels a and b alone, `counts[i][j]` is the number of times a is immediately followed by b |
| `TransitionCounts.ObservedPairCounted` | calculator_build_json.py:15-17 | every adjacent pair in the corpus is counted |
| `TransitionCounts.UnobservedSourceNotCounted` | calculator_build_json.py:15-17 | a label never followed by another label (for example one seen only at sequence ends or in length-1 sequences) has no counted transitions |
| `TransitionCounts.TransitionsPositiveIffObserved` | calculator_build_json.py:15-17 | a pair's count is positive if and only if the pair occurs adjacently somewhere in the corpus |
| `Distributions.Put` | calculator_build_json.py:38 | `d[x] = v` stores v under x, leaves other keys alone, keeps an existing key's place and appends a new key |
| `Distributions.FirstSeen` | calculator_build_json.py:28 | `Counter`'s keys are distinct and are exactly the labels counted |
| `Distributions.FrequenciesEntries` | calculator_build_json.py:28-30 | the keys are the distinct labels; each value is that label's count over the total and lies in (0, 1] |
| `Distributions.FrequenciesSumToOne` | calculator_build_json.py:28-30 | the values of a non-empty empirical distribution sum to exactly 1 |
| `Distributions.BestIndex` | calculator_build_json.py:77 | `max` with a key picks a maximal entry, and the first of equal maxima |
| `Distributions.MostLikely` | calculator_build_json.py:77 | `max` fails exactly on an empty dict (ValueError); otherwise it returns the label of the first maximal entry |
| `Calculator.AllStates` | calculator_build_json.py:43 | `all_states` is strictly increasing and holds exactly the labels that occur in some sequence |
| `Calculator.AllStatesPermutationInvariant` | calculator_build_json.py:43 | reordering the sequences does not change `all_states` |
| `Calculator.InitialStates` | calculator_build_json.py:27-30 | keys are exactly the first labels, in order of first appearance; each value is the number of sequences starting with that label over the number of sequences; the values sum to 1 on a non-empty corpus |
| `Calculator.FinalStates` | calculator_build_json.py:33-39 | the same for last labels (`seq[-1]`) |
| `Calculator.CalculateFinalStates` | calculator_build_json.py:33-39 | the dict filled key by key in `Counter` order is the distribution of last labels |
| `Calculator.EstimatedRow` | calculator_build_json.py:19-23 | a label's row is all zero exactly when it was never followed by another label; otherwise its entries are in [0, 1] and sum to 1 |
| `Calculator.CountRowIsTransitionRow` | calculator_build_json.py:44-46 | through the index map of the sorted labels, count row i is the row of label-pair counts of `all_states[i]` |
| `Calculator.AnalyzeSequences` | calculator_build_json.py:42-56 | fails with IndexError exactly when some sequence is empty; otherwise returns the sorted states, their index map, the estimated rows and both distributions |
| `Calculator.ChooseConfig` | calculator_build_json.py:77-78 | fails exactly when the initial distribution is empty; otherwise `initial` is the first key of maximal initial probability and `terminal_states` is the key list of the final distribution |
| `Calculator.ChosenInitialIsMostFrequent` | calculator_build_json.py:77 | the chosen initial state begins some sequence, no label begins more sequences, and every first label seen before it begins strictly fewer (the first of equal maxima in `Counter` order) |
| `Calculator.Integration` | calculator_build_json.py:75-78 | an empty sequence gives IndexError and an empty corpus gives ValueError; otherwise the configuration holds the sorted states, the estimated matrix, the most frequent first label that appears first among the first labels (ties go to the earliest), and the last labels in order of first appearance |
| `StateMachine.PyIndex` | transitions_sample.py:41 | Python list indexing: valid exactly for -n <= i < n, and a negative index counts from the end |
| `StateMachine.StepRow` | transitions_sample.py:37-42 | the row `random.choices` receives is the matrix row at the (Python-indexed) position of the current state, or the exception, one clause per cause in checking order: KeyError for an unknown current state; IndexError for a bad row index or no states; ValueError for a weight count that differs from the states or a total that is not positive |
| `StateMachine.StepHasSuccessor` | transitions_sample.py:39-44 | when the row passes those checks, some state can be drawn |
| `StateMachine.WellFormedCanStep` | transitions_sample.py:18-42 | with the index map `__init__` builds from distinct states and a square matrix, stepping from `states[i]` uses row i and succeeds exactly when that row's total is positive |
| `StateMachine.Capture` | transitions_sample.py:51-62 | the record holds `states`, `state_index`, the matrix, the current state, the terminal states and the flag; `initial` is `states[0]`, which fails on an empty state list |
| `StateMachine.Restore` | transitions_sample.py:64-82 | fields are copied; missing terminal states become an empty set and a missing flag becomes False; it fails exactly when the saved current state is neither the initial state nor one of the states, and then the machine stays in the initial state |
| `StateMachine.RoundTrip` | transitions_sample.py:51-82 | save then restore reproduces every field exactly when the current state is one of the states, and fails otherwise |
| `StateMachine.Fsm.constructor` | transitions_sample.py:10-26 | the fields are set, the index map is built from the states, the machine starts in `initial`, and `is_terminated` is False |
| `StateMachine.Fsm.TriggerTransition` | transitions_sample.py:36-49 | fails exactly as `StepRow` says and then changes nothing; otherwise returns a state whose weight in the current row is positive, makes it the current state, and changes no other field |
| `StateMachine.Fsm.SetState` | transitions_sample.py:64-82 | assigns the fields one by one and ends in the state `Restore` describes |
| `StateMachine.PathSnoc` | transitions_sample.py:120-122 | a path extended by a possible step from its end is a path ending at that step |
| `StateMachine.Fsm.RunDemo` | transitions_sample.py:120-128 | at most five steps, each a possible transition from the previous state; only the last returned label may be terminal; the flag is set exactly when it is; the loop ends early only on termination or an exception; an exception is the failure of the step from the final state, and comes only after non-terminal labels, with the flag unchanged; a run without an exception takes at least one step |
| `Pipeline.EstimatedMachineSteps` | calculator_build_json.py:19-23 | for a machine loaded with the estimated states and matrix, standing on a corpus label: its weights are non-negative, it can step exactly when its label was followed by another label, and it can move to exactly the labels observed right after the current one |
| `Pipeline.EstimatedRowSteps` | calculator_build_json.py:21-23 | an estimated row has a positive total exactly when its label was followed by another label |

## Left out

- File handling in `integration` is not modelled: creating missing files, reading the CSV and writing the JSON (`calculator_build_json.py:58-73`, `:80-86`). The same goes for `Config.load_from_json`, `save_to_pickle` and `load_from_pickle` (`transitions_sample.py:84-107`). A corpus is a list of label lists, and whitespace trimming is assumed done.
- The `transitions.Machine` library is reduced to a current-state field. The model keeps one fact about it: a `to_<label>` move exists for each state it was built with, and for an initial state it added.
- `random.choices` is a free choice among indices of positive weight. The probabilities of the draw are not modelled.
- Negative weights are not modelled. Python leaves `random.choices` undefined for them. `TriggerTransition` and `RunDemo` therefore require every matrix entry to be non-negative, which the estimator's matrices satisfy (`Pipeline.EstimatedMachineSteps`).
- Floats are not modelled; reals make the sums exact. The finiteness check of `random.choices` has no counterpart.
- `FSM.from_dict` (`transitions_sample.py:29-34`) is not modelled. It omits the constructor's required `terminal_states` argument, so every call raises TypeError.
- The demo after line 128 is not modelled: printing, pickling and three more steps. Those later steps check and set the flag on `model` instead of `loaded_model`, and the model does not copy that.
- The repeated computation of `all_states` at `calculator_build_json.py:49` is not modelled. It produces the same list as line 43.
- `StateMachine.Fsm.constructor`: terminal states are kept as a set, not as the list passed in. Only membership is ever read, and `__setstate__` stores a set anyway.
- The constructor does not model what `Machine` does with duplicate state names.
- `StateMachine.Restore`: a snapshot record missing `states`, `state_index`, `transition_matrix`, `initial` or `current_state` is not modelled; `__setstate__` raises KeyError then (`transitions_sample.py:67-69`, `:77`, `:81`). Records only come from `__getstate__`, which always writes all five, so `Snapshot` makes them mandatory fields.
- Behaviour that may be surprising, modelled as the code does it:
  - An all-zero row makes `random.choices` raise ValueError (`ZeroTotalWeight`); the step does not stay in place.
  - An empty corpus is accepted by `analyze_sequences` and only fails at `max` (`EmptyCorpus`).
  - An initial state outside `states` is accepted at construction. The first step then fails with KeyError, and unpickling such a machine fails too (`RoundTrip`).
  - The terminal check is made by the demo loop, not by `trigger_transition`.
  - `is_terminated` is modelled as a per-object field that starts False.
