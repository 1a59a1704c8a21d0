/** Empirical distributions as the estimator builds them with `Counter` and
    dicts. A Python dict keeps its keys in insertion order, which decides both
    `list(d.keys())` and which key `max(d, key=d.get)` returns, so a dict of
    probabilities is modelled as an ordered list of entries. */
module Distributions {
  import opened Labels
  import opened Sums

  /** One `state: probability` item of a dict. */
  datatype Entry = Entry(state: Label, prob: real)

  /** `list(d.keys())` */
  function Keys(d: seq<Entry>): (ks: seq<Label>)
    ensures |ks| == |d|
  {
    seq(|d|, k requires 0 <= k < |d| => d[k].state)
  }

  /** `list(d.values())` */
  function Probs(d: seq<Entry>): (ps: seq<real>)
    ensures |ps| == |d|
  {
    seq(|d|, k requires 0 <= k < |d| => d[k].prob)
  }

  /** `d.get(x)`: the value stored under `x`, if any. */
  function Lookup(d: seq<Entry>, x: Label): Option<real>
  {
    if d == [] then None
    else if d[0].state == x then Some(d[0].prob)
    else Lookup(d[1..], x)
  }

  /** `d[x] = v`: an existing key keeps its place and gets the new value,
      a new key goes at the end. */
  function Put(d: seq<Entry>, x: Label, v: real): (r: seq<Entry>)
    ensures Lookup(r, x) == Some(v)
    ensures forall y :: y != x ==> Lookup(r, y) == Lookup(d, y)
    ensures Keys(r) == if x in Keys(d) then Keys(d) else Keys(d) + [x]
  {
    if d == [] then [Entry(x, v)]
    else if d[0].state == x then
      assert Keys(d)[0] == x;
      assert Keys([Entry(x, v)] + d[1..]) == Keys(d);
      [Entry(x, v)] + d[1..]
    else
      var rest := Put(d[1..], x, v);
      assert Keys(d) == [d[0].state] + Keys(d[1..]);
      assert Keys([d[0]] + rest) == [d[0].state] + Keys(rest);
      [d[0]] + rest
  }

  /** Assigning a key the dict does not hold appends it. */
  lemma {:induction false} PutNew(d: seq<Entry>, x: Label, v: real)
    requires x !in Keys(d)
    ensures Put(d, x, v) == d + [Entry(x, v)]
  {
    if d != [] {
      assert Keys(d)[0] == d[0].state;
      assert Keys(d[1..]) == Keys(d)[1..];
      PutNew(d[1..], x, v);
      assert d == [d[0]] + d[1..];
    }
  }

  /** `Counter(s)[x]`: how often `x` occurs in `s`. */
  function Occurrences(s: seq<Label>, x: Label): nat
  {
    if s == [] then 0
    else Occurrences(s[..|s| - 1], x) + (if s[|s| - 1] == x then 1 else 0)
  }

  /** The keys of `Counter(s)` in the order the dict keeps them: by first occurrence. */
  function FirstSeen(s: seq<Label>): (r: seq<Label>)
    ensures Distinct(r)
    ensures forall x :: x in r <==> x in s
    ensures |r| <= |s|
  {
    if s == [] then []
    else
      var r := FirstSeen(s[..|s| - 1]);
      assert forall x :: x in s <==> x in s[..|s| - 1] || x == s[|s| - 1] by {
        assert s == s[..|s| - 1] + [s[|s| - 1]];
      }
      if s[|s| - 1] in r then r else r + [s[|s| - 1]]
  }

  /** `{key: counter[key] / total for key in keys}`, keys in the given order. */
  function Tabulate(s: seq<Label>, keys: seq<Label>, total: nat): (d: seq<Entry>)
    requires keys == [] || total > 0
    ensures Keys(d) == keys
  {
    if keys == [] then []
    else
      var init := Tabulate(s, keys[..|keys| - 1], total);
      var x := keys[|keys| - 1];
      assert Keys(init + [Entry(x, Occurrences(s, x) as real / total as real)]) == Keys(init) + [x];
      init + [Entry(x, Occurrences(s, x) as real / total as real)]
  }

  /** The empirical distribution of the labels `s`: each distinct label, in
      order of first occurrence, with its count divided by `len(s)`. */
  function Frequencies(s: seq<Label>): (d: seq<Entry>)
    ensures Keys(d) == FirstSeen(s)
  {
    Tabulate(s, FirstSeen(s), |s|)
  }

  lemma {:induction false} OccurrencesAbsent(s: seq<Label>, x: Label)
    ensures Occurrences(s, x) == 0 <==> x !in s
  {
    if s != [] {
      OccurrencesAbsent(s[..|s| - 1], x);
      assert s == s[..|s| - 1] + [s[|s| - 1]];
    }
  }

  lemma {:induction false} OccurrencesAtMostLength(s: seq<Label>, x: Label)
    ensures Occurrences(s, x) <= |s|
  {
    if s != [] {
      OccurrencesAtMostLength(s[..|s| - 1], x);
    }
  }

  /** A label occurs exactly once in a list of distinct labels that holds it. */
  lemma {:induction false} OccursOnce(keys: seq<Label>, x: Label)
    requires Distinct(keys) && x in keys
    ensures Occurrences(keys, x) == 1
  {
    var init := keys[..|keys| - 1];
    assert keys == init + [keys[|keys| - 1]];
    if keys[|keys| - 1] == x {
      OccurrencesAbsent(init, x);
    } else {
      OccursOnce(init, x);
    }
  }

  /** Sum, over `keys`, of the counts of each key in `s`. */
  function CountSum(s: seq<Label>, keys: seq<Label>): nat
  {
    if keys == [] then 0
    else CountSum(s, keys[..|keys| - 1]) + Occurrences(s, keys[|keys| - 1])
  }

  lemma {:induction false} CountSumSnoc(s: seq<Label>, y: Label, keys: seq<Label>)
    ensures CountSum(s + [y], keys) == CountSum(s, keys) + Occurrences(keys, y)
  {
    if keys != [] {
      CountSumSnoc(s, y, keys[..|keys| - 1]);
      assert (s + [y])[..|s|] == s;
    }
  }

  /** Counting every label of `s` once per distinct key gives `len(s)`. */
  lemma {:induction false} CountSumCoversAll(s: seq<Label>, keys: seq<Label>)
    requires Distinct(keys)
    requires forall x :: x in s ==> x in keys
    ensures CountSum(s, keys) == |s|
  {
    if s == [] {
      CountSumEmpty(keys);
    } else {
      var init, y := s[..|s| - 1], s[|s| - 1];
      assert s == init + [y];
      CountSumCoversAll(init, keys);
      CountSumSnoc(init, y, keys);
      OccursOnce(keys, y);
    }
  }

  lemma {:induction false} CountSumEmpty(keys: seq<Label>)
    ensures CountSum([], keys) == 0
  {
    if keys != [] {
      CountSumEmpty(keys[..|keys| - 1]);
    }
  }

  lemma {:induction false} TabulateSum(s: seq<Label>, keys: seq<Label>, total: nat)
    requires total > 0
    ensures RealSum(Probs(Tabulate(s, keys, total))) == CountSum(s, keys) as real / total as real
  {
    if keys != [] {
      var init := keys[..|keys| - 1];
      var d := Tabulate(s, keys, total);
      TabulateSum(s, init, total);
      assert Probs(d)[..|d| - 1] == Probs(Tabulate(s, init, total));
      var before, c := CountSum(s, init), Occurrences(s, keys[|keys| - 1]);
      assert RealSum(Probs(d)) == before as real / total as real + c as real / total as real;
      AddFractions(before as real, c as real, total as real);
    }
  }

  lemma AddFractions(a: real, b: real, t: real)
    requires t > 0.0
    ensures a / t + b / t == (a + b) / t
  {
  }

  lemma {:induction false} TabulateEntries(s: seq<Label>, keys: seq<Label>, total: nat)
    requires total > 0
    ensures forall k :: 0 <= k < |keys| ==>
      Tabulate(s, keys, total)[k] == Entry(keys[k], Occurrences(s, keys[k]) as real / total as real)
  {
    if keys != [] {
      TabulateEntries(s, keys[..|keys| - 1], total);
    }
  }

  /** The shape of an empirical distribution: its keys are exactly the distinct
      labels of `s`, each value is that label's count over `len(s)`, strictly
      positive and at most 1. */
  lemma FrequenciesEntries(s: seq<Label>)
    ensures Distinct(Keys(Frequencies(s)))
    ensures forall x :: x in Keys(Frequencies(s)) <==> x in s
    ensures forall k :: 0 <= k < |Frequencies(s)| ==>
      Frequencies(s)[k].prob == Occurrences(s, Frequencies(s)[k].state) as real / |s| as real
    ensures forall k :: 0 <= k < |Frequencies(s)| ==> 0.0 < Frequencies(s)[k].prob <= 1.0
  {
    var d := Frequencies(s);
    if s != [] {
      TabulateEntries(s, FirstSeen(s), |s|);
      forall k | 0 <= k < |d| ensures 0.0 < d[k].prob <= 1.0 {
        var x := FirstSeen(s)[k];
        assert Keys(d)[k] == x;
        OccurrencesAbsent(s, x);
        OccurrencesAtMostLength(s, x);
        FractionInUnit(Occurrences(s, x), |s|);
      }
    }
  }

  lemma FractionInUnit(c: nat, t: nat)
    requires 0 < c <= t
    ensures 0.0 < c as real / t as real <= 1.0
  {
  }

  /** The probabilities of an empirical distribution add up to exactly 1. */
  lemma FrequenciesSumToOne(s: seq<Label>)
    ensures s != [] ==> RealSum(Probs(Frequencies(s))) == 1.0
  {
    if s != [] {
      FrequenciesSumToOneNonEmpty(s);
    }
  }

  lemma FrequenciesSumToOneNonEmpty(s: seq<Label>)
    requires s != []
    ensures RealSum(Probs(Frequencies(s))) == 1.0
  {
    TabulateSum(s, FirstSeen(s), |s|);
    CountSumCoversAll(s, FirstSeen(s));
    WholeFraction(|s| as real);
  }

  lemma WholeFraction(t: real)
    requires t > 0.0
    ensures t / t == 1.0
  {
  }

  /** `max(d, key=d.get)`'s choice: it walks the dict in order and only
      replaces its candidate by a strictly larger value, so it returns the
      first entry of maximal probability. */
  function BestIndex(d: seq<Entry>): (b: nat)
    requires d != []
    ensures b < |d|
    ensures forall k :: 0 <= k < |d| ==> d[k].prob <= d[b].prob
    ensures forall k :: 0 <= k < b ==> d[k].prob < d[b].prob
  {
    if |d| == 1 then 0
    else
      var b := BestIndex(d[..|d| - 1]);
      if d[|d| - 1].prob > d[b].prob then |d| - 1 else b
  }

  /** `max(d, key=d.get)`, which raises ValueError on an empty dict. */
  function MostLikely(d: seq<Entry>): (r: Result<Label>)
    ensures r.Failure? <==> d == []
    ensures r.Failure? ==> r.error == EmptyCorpus
    ensures r.Success? ==>
      exists b :: (0 <= b < |d| && d[b].state == r.value
        && (forall k :: 0 <= k < |d| ==> d[k].prob <= d[b].prob)
        && (forall k :: 0 <= k < b ==> d[k].prob < d[b].prob))
  {
    if d == [] then Failure(EmptyCorpus) else Success(d[BestIndex(d)].state)
  }
}
