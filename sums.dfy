/** Sums over lists of counts and of probabilities, accumulated left to right
    as Python's `sum` does. Probabilities are reals, so sums are exact. */
module Sums {

  function Sum(s: seq<nat>): nat
  {
    if s == [] then 0 else Sum(s[..|s| - 1]) + s[|s| - 1]
  }

  function RealSum(s: seq<real>): real
  {
    if s == [] then 0.0 else RealSum(s[..|s| - 1]) + s[|s| - 1]
  }

  /** `[c * factor for c in row]` over a row of counts. */
  function Scaled(row: seq<nat>, factor: real): (r: seq<real>)
    ensures |r| == |row|
  {
    seq(|row|, k requires 0 <= k < |row| => row[k] as real * factor)
  }

  lemma {:induction false} SumZero(s: seq<nat>)
    requires Sum(s) == 0
    ensures forall k :: 0 <= k < |s| ==> s[k] == 0
  {
    if s != [] {
      SumZero(s[..|s| - 1]);
      forall k | 0 <= k < |s| - 1 ensures s[k] == 0 {
        assert s[..|s| - 1][k] == s[k];
      }
    }
  }

  lemma {:induction false} SumOfZeros(s: seq<nat>)
    requires forall k :: 0 <= k < |s| ==> s[k] == 0
    ensures Sum(s) == 0
  {
    if s != [] {
      SumOfZeros(s[..|s| - 1]);
    }
  }

  lemma {:induction false} ElementAtMostSum(s: seq<nat>, k: int)
    requires 0 <= k < |s|
    ensures s[k] <= Sum(s)
  {
    if k < |s| - 1 {
      ElementAtMostSum(s[..|s| - 1], k);
    }
  }

  lemma {:induction false} ScaledSum(row: seq<nat>, factor: real)
    ensures RealSum(Scaled(row, factor)) == Sum(row) as real * factor
  {
    if row != [] {
      var init := row[..|row| - 1];
      ScaledSum(init, factor);
      var whole, part := Scaled(row, factor), Scaled(init, factor);
      assert whole[..|row| - 1] == part by {
        forall k | 0 <= k < |init| ensures whole[k] == part[k] {
          assert init[k] == row[k];
        }
      }
    }
  }

  /** A non-negative weight list with a positive total has a positive weight. */
  lemma {:induction false} PositiveTotalHasPositiveWeight(w: seq<real>)
    requires forall k :: 0 <= k < |w| ==> w[k] >= 0.0
    requires RealSum(w) > 0.0
    ensures exists k :: 0 <= k < |w| && w[k] > 0.0
  {
    var init := w[..|w| - 1];
    if w[|w| - 1] <= 0.0 {
      PositiveTotalHasPositiveWeight(init);
      var k :| 0 <= k < |init| && init[k] > 0.0;
      assert w[k] > 0.0;
    }
  }
}
