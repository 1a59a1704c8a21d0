/** `ProbabilityCalculator.calculate_transition_matrix`: counts adjacent label
    pairs into an n x n table, then divides each row by its total. */
module TransitionCounts {
  import opened Labels
  import opened Sums

  /** The observed sequences: one list of labels per CSV row. */
  type Corpus = seq<seq<Label>>

  /** Every label of the corpus has an entry in the index map
      (otherwise `state_idx[cur]` raises KeyError). */
  predicate Covers(corpus: Corpus, idx: map<Label, int>)
  {
    forall k, p :: 0 <= k < |corpus| && 0 <= p < |corpus[k]| ==> corpus[k][p] in idx
  }

  /** Every index is a valid row and column of the n x n table, n = len(state_idx). */
  predicate IndexesInRange(idx: map<Label, int>)
  {
    forall x :: x in idx ==> 0 <= idx[x] < |idx|
  }

  /** Number of pairs `zip(seq, seq[1:])` yields. */
  function NumPairs(s: seq<Label>): nat
  {
    if s == [] then 0 else |s| - 1
  }

  /** Among the first `p` adjacent pairs of `s`, those whose labels have
      indices `i` then `j`. */
  function PairsBefore(s: seq<Label>, idx: map<Label, int>, i: int, j: int, p: nat): nat
    requires p <= NumPairs(s)
    requires forall q :: 0 <= q < |s| ==> s[q] in idx
  {
    if p == 0 then 0
    else PairsBefore(s, idx, i, j, p - 1) + (if idx[s[p - 1]] == i && idx[s[p]] == j then 1 else 0)
  }

  /** The value `counts[i][j]` reaches: adjacent pairs over the whole corpus
      whose labels have indices `i` then `j`. */
  function PairCount(corpus: Corpus, idx: map<Label, int>, i: int, j: int): nat
    requires Covers(corpus, idx)
  {
    if corpus == [] then 0
    else
      var last := corpus[|corpus| - 1];
      assert forall q :: 0 <= q < |last| ==> last[q] in idx;
      PairCount(corpus[..|corpus| - 1], idx, i, j) + PairsBefore(last, idx, i, j, NumPairs(last))
  }

  /** Row `i` of the count table. */
  function CountRow(corpus: Corpus, idx: map<Label, int>, i: int): (row: seq<nat>)
    requires Covers(corpus, idx)
    ensures |row| == |idx|
  {
    seq(|idx|, j requires 0 <= j < |idx| => PairCount(corpus, idx, i, j))
  }

  /** Lines 21-23: `inv = 1.0 / (row_tot or 1)` and `[c * inv for c in counts[i]]`. */
  function Normalised(row: seq<nat>): (r: seq<real>)
    ensures |r| == |row|
  {
    var total := Sum(row);
    Scaled(row, 1.0 / (if total == 0 then 1 else total) as real)
  }

  /** A row with no observed transitions stays all zero; any other row is a
      probability distribution: entries in [0, 1] that add up to exactly 1. */
  lemma NormalisedRow(row: seq<nat>)
    ensures Sum(row) == 0 ==> forall j :: 0 <= j < |row| ==> Normalised(row)[j] == 0.0
    ensures Sum(row) > 0 ==> RealSum(Normalised(row)) == 1.0
    ensures Sum(row) > 0 ==> forall j :: 0 <= j < |row| ==> 0.0 <= Normalised(row)[j] <= 1.0
  {
    if Sum(row) == 0 {
      SumZero(row);
    } else {
      NormalisedPositiveRow(row);
    }
  }

  lemma NormalisedPositiveRow(row: seq<nat>)
    requires Sum(row) > 0
    ensures RealSum(Normalised(row)) == 1.0
    ensures forall j :: 0 <= j < |row| ==> 0.0 <= Normalised(row)[j] <= 1.0
  {
    var t := Sum(row) as real;
    assert Normalised(row) == Scaled(row, 1.0 / t);
    ScaledSum(row, 1.0 / t);
    Reciprocal(t);
    ScaledBounds(row, 1.0 / t);
  }

  lemma ScaledBounds(row: seq<nat>, f: real)
    requires Sum(row) > 0 && f == 1.0 / Sum(row) as real
    ensures forall j :: 0 <= j < |row| ==> 0.0 <= Scaled(row, f)[j] <= 1.0
  {
    forall j | 0 <= j < |row| ensures 0.0 <= Scaled(row, f)[j] <= 1.0 {
      ElementAtMostSum(row, j);
      FractionBounds(row[j] as real, Sum(row) as real);
    }
  }

  lemma Reciprocal(t: real)
    requires t > 0.0
    ensures t * (1.0 / t) == 1.0
  {
  }

  lemma FractionBounds(c: real, t: real)
    requires 0.0 <= c <= t && t > 0.0
    ensures 0.0 <= c * (1.0 / t) <= 1.0
  {
    assert c * (1.0 / t) <= t * (1.0 / t);
  }

  /** The entries of a normalised row are never negative: they are valid
      `random.choices` weights. */
  lemma NormalisedNonNegative(row: seq<nat>)
    ensures forall j :: 0 <= j < |row| ==> Normalised(row)[j] >= 0.0
  {
    NormalisedRow(row);
  }

  /** An entry of a normalised row is positive exactly when its count is. */
  lemma NormalisedPositive(row: seq<nat>, j: int)
    requires 0 <= j < |row|
    ensures Normalised(row)[j] > 0.0 <==> row[j] > 0
  {
    var t := (if Sum(row) == 0 then 1 else Sum(row)) as real;
    assert Normalised(row)[j] == row[j] as real * (1.0 / t);
    PositiveScale(row[j] as real, 1.0 / t);
  }

  lemma PositiveScale(c: real, f: real)
    requires c >= 0.0 && f > 0.0
    ensures c * f > 0.0 <==> c > 0.0
  {
  }

  lemma CoversPrefix(corpus: Corpus, idx: map<Label, int>, n: nat)
    requires Covers(corpus, idx) && n <= |corpus|
    ensures Covers(corpus[..n], idx)
  {
    forall k, p | 0 <= k < n && 0 <= p < |corpus[..n][k]| ensures corpus[..n][k][p] in idx {
      assert corpus[..n][k] == corpus[k];
    }
  }

  /** Lines 12-24. `counts` is the n x n table filled in place by the nested
      loops; `matrix` receives one normalised row per iteration. */
  method CalculateTransitionMatrix(sequences: Corpus, stateIdx: map<Label, int>)
    returns (matrix: seq<seq<real>>)
    requires Covers(sequences, stateIdx)
    requires IndexesInRange(stateIdx)
    ensures |matrix| == |stateIdx|
    ensures forall i :: 0 <= i < |matrix| ==> matrix[i] == Normalised(CountRow(sequences, stateIdx, i))
  {
    var n := |stateIdx|;
    var counts := new nat[n, n]((_, _) => 0);
    var s := 0;
    while s < |sequences|
      invariant 0 <= s <= |sequences|
      invariant Covers(sequences[..s], stateIdx)
      invariant forall i, j :: 0 <= i < n && 0 <= j < n ==> counts[i, j] == PairCount(sequences[..s], stateIdx, i, j)
    {
      var sq := sequences[s];
      assert forall q :: 0 <= q < |sq| ==> sq[q] in stateIdx;
      var p := 0;
      while p < NumPairs(sq)
        invariant 0 <= p <= NumPairs(sq)
        invariant forall i, j :: 0 <= i < n && 0 <= j < n ==>
          counts[i, j] == PairCount(sequences[..s], stateIdx, i, j) + PairsBefore(sq, stateIdx, i, j, p)
      {
        var cur, nxt := sq[p], sq[p + 1];
        counts[stateIdx[cur], stateIdx[nxt]] := counts[stateIdx[cur], stateIdx[nxt]] + 1;
        p := p + 1;
      }
      CoversPrefix(sequences, stateIdx, s + 1);
      assert sequences[..s + 1][..s] == sequences[..s];
      s := s + 1;
    }
    assert sequences[..s] == sequences;

    matrix := seq(n, _ => seq(n, _ => 0.0));
    var i := 0;
    while i < n
      invariant 0 <= i <= n && |matrix| == n
      invariant forall r :: 0 <= r < i ==> matrix[r] == Normalised(CountRow(sequences, stateIdx, r))
    {
      var row := seq(n, j requires 0 <= j < n reads counts => counts[i, j]);
      var rowTot := Sum(row);
      var inv := 1.0 / (if rowTot == 0 then 1 else rowTot) as real;
      assert row == CountRow(sequences, stateIdx, i);
      matrix := matrix[i := Scaled(row, inv)];
      i := i + 1;
    }
  }

  /** Label-level count: adjacent positions of the first `p` pairs of `s`
      holding `a` then `b`. */
  function AdjacentBefore(s: seq<Label>, a: Label, b: Label, p: nat): nat
    requires p <= NumPairs(s)
  {
    if p == 0 then 0
    else AdjacentBefore(s, a, b, p - 1) + (if s[p - 1] == a && s[p] == b then 1 else 0)
  }

  /** How often label `a` is immediately followed by label `b` in the corpus. */
  function Transitions(corpus: Corpus, a: Label, b: Label): nat
  {
    if corpus == [] then 0
    else
      var last := corpus[|corpus| - 1];
      Transitions(corpus[..|corpus| - 1], a, b) + AdjacentBefore(last, a, b, NumPairs(last))
  }

  lemma {:induction false} PairsBeforeIsAdjacent(s: seq<Label>, idx: map<Label, int>, i: int, j: int, a: Label, b: Label, p: nat)
    requires p <= NumPairs(s)
    requires forall q :: 0 <= q < |s| ==> s[q] in idx
    requires forall x :: x in idx ==> (idx[x] == i <==> x == a)
    requires forall x :: x in idx ==> (idx[x] == j <==> x == b)
    ensures PairsBefore(s, idx, i, j, p) == AdjacentBefore(s, a, b, p)
  {
    if p > 0 {
      PairsBeforeIsAdjacent(s, idx, i, j, a, b, p - 1);
    }
  }

  /** When index `i` stands for label `a` alone and `j` for `b` alone,
      `counts[i][j]` is the number of times `a` is immediately followed by `b`. */
  lemma {:induction false} PairCountIsTransitions(corpus: Corpus, idx: map<Label, int>, i: int, j: int, a: Label, b: Label)
    requires Covers(corpus, idx)
    requires forall x :: x in idx ==> (idx[x] == i <==> x == a)
    requires forall x :: x in idx ==> (idx[x] == j <==> x == b)
    ensures PairCount(corpus, idx, i, j) == Transitions(corpus, a, b)
  {
    if corpus != [] {
      var last := corpus[|corpus| - 1];
      CoversPrefix(corpus, idx, |corpus| - 1);
      PairCountIsTransitions(corpus[..|corpus| - 1], idx, i, j, a, b);
      PairsBeforeIsAdjacent(last, idx, i, j, a, b, NumPairs(last));
    }
  }

  /** Label `a` occurs somewhere other than at the end of a sequence,
      i.e. some transition out of `a` was observed. */
  ghost predicate IsSource(corpus: Corpus, a: Label)
  {
    exists k, p :: 0 <= k < |corpus| && 0 <= p < |corpus[k]| - 1 && corpus[k][p] == a
  }

  lemma {:induction false} AdjacentBeforeMonotone(s: seq<Label>, a: Label, b: Label, p: nat, q: nat)
    requires p <= q <= NumPairs(s)
    ensures AdjacentBefore(s, a, b, p) <= AdjacentBefore(s, a, b, q)
  {
    if p < q {
      AdjacentBeforeMonotone(s, a, b, p, q - 1);
    }
  }

  /** Every observed adjacent pair is counted. */
  lemma {:induction false} ObservedPairCounted(corpus: Corpus, k: int, p: int)
    requires 0 <= k < |corpus| && 0 <= p < |corpus[k]| - 1
    ensures Transitions(corpus, corpus[k][p], corpus[k][p + 1]) > 0
  {
    var n := |corpus|;
    var a, b := corpus[k][p], corpus[k][p + 1];
    if k == n - 1 {
      var last := corpus[n - 1];
      AdjacentBeforeMonotone(last, a, b, p + 1, NumPairs(last));
    } else {
      assert corpus[..n - 1][k] == corpus[k];
      ObservedPairCounted(corpus[..n - 1], k, p);
    }
  }

  /** A label never seen before another label has no counted transitions. */
  lemma {:induction false} UnobservedSourceNotCounted(corpus: Corpus, a: Label, b: Label)
    requires !IsSource(corpus, a)
    ensures Transitions(corpus, a, b) == 0
  {
    if corpus != [] {
      var n := |corpus|;
      var init, last := corpus[..n - 1], corpus[n - 1];
      forall k, p | 0 <= k < |init| && 0 <= p < |init[k]| - 1 ensures init[k][p] != a {
        assert init[k] == corpus[k];
      }
      UnobservedSourceNotCounted(init, a, b);
      forall p | 0 <= p < |last| - 1 ensures last[p] != a {
        assert last == corpus[n - 1];
      }
      LastRowNotCounted(last, a, b, NumPairs(last));
    }
  }

  lemma {:induction false} LastRowNotCounted(s: seq<Label>, a: Label, b: Label, p: nat)
    requires p <= NumPairs(s)
    requires forall q :: 0 <= q < |s| - 1 ==> s[q] != a
    ensures AdjacentBefore(s, a, b, p) == 0
  {
    if p > 0 {
      LastRowNotCounted(s, a, b, p - 1);
    }
  }

  /** Label `a` is immediately followed by label `b` somewhere in the corpus. */
  ghost predicate Observed(corpus: Corpus, a: Label, b: Label)
  {
    exists k, p :: 0 <= k < |corpus| && 0 <= p < |corpus[k]| - 1 && corpus[k][p] == a && corpus[k][p + 1] == b
  }

  /** The count of a pair is positive exactly when the pair was observed. */
  lemma TransitionsPositiveIffObserved(corpus: Corpus, a: Label, b: Label)
    ensures Transitions(corpus, a, b) > 0 <==> Observed(corpus, a, b)
  {
    if Observed(corpus, a, b) {
      var k, p :| 0 <= k < |corpus| && 0 <= p < |corpus[k]| - 1 && corpus[k][p] == a && corpus[k][p + 1] == b;
      ObservedPairCounted(corpus, k, p);
    }
    if Transitions(corpus, a, b) > 0 {
      CountedPairObserved(corpus, a, b);
    }
  }

  lemma {:induction false} CountedPairObserved(corpus: Corpus, a: Label, b: Label)
    requires Transitions(corpus, a, b) > 0
    ensures Observed(corpus, a, b)
  {
    var n := |corpus|;
    var init, last := corpus[..n - 1], corpus[n - 1];
    if Transitions(init, a, b) > 0 {
      CountedPairObserved(init, a, b);
      var k, p :| 0 <= k < |init| && 0 <= p < |init[k]| - 1 && init[k][p] == a && init[k][p + 1] == b;
      assert corpus[k] == init[k];
    } else {
      var p := AdjacentWitness(last, a, b, NumPairs(last));
      assert corpus[n - 1][p] == a && corpus[n - 1][p + 1] == b;
    }
  }

  lemma {:induction false} AdjacentWitness(s: seq<Label>, a: Label, b: Label, p: nat) returns (q: nat)
    requires p <= NumPairs(s) && AdjacentBefore(s, a, b, p) > 0
    ensures q < p && s[q] == a && s[q + 1] == b
  {
    if s[p - 1] == a && s[p] == b {
      q := p - 1;
    } else {
      q := AdjacentWitness(s, a, b, p - 1);
    }
  }
}
