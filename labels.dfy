/** State labels, their ordering, and the label -> position map shared by the
    estimator and the state machine. Also the Option/Result types used to model
    the exceptions the Python code raises. */
module Labels {

  /** A state label: a Python `str`, compared by code points. */
  type Label = string

  datatype Option<T> = None | Some(value: T)

  /** The exceptions raised by the modelled code, one constructor per cause. */
  datatype Error =
    | EmptySequence        // `seq[0]` / `seq[-1]` on an empty row: IndexError
    | EmptyCorpus          // `max()` of an empty dict: ValueError
    | UnknownState         // `state_index[self.state]`: KeyError
    | RowOutOfRange        // `transition_matrix[current_idx]`: IndexError
    | WeightCountMismatch  // `random.choices`: number of weights differs from the population
    | EmptyPopulation      // `random.choices` over `range(0)`: IndexError on the cumulative weights
    | ZeroTotalWeight      // `random.choices`: total of weights is not greater than zero
    | NoSuchTransition     // `getattr(self, 'to_' + label)` for a label the machine does not know
    | NoStates             // `self.states[0]` on an empty state list: IndexError

  datatype Result<T> = Success(value: T) | Failure(error: Error)

  /** Python's `a < b` on strings: lexicographic on code points, a proper
      prefix comes first. */
  predicate LexLess(a: Label, b: Label)
  {
    if a == [] then b != []
    else if b == [] then false
    else if a[0] != b[0] then a[0] < b[0]
    else LexLess(a[1..], b[1..])
  }

  lemma {:induction false} LexIrreflexive(a: Label)
    ensures !LexLess(a, a)
  {
    if a != [] {
      LexIrreflexive(a[1..]);
    }
  }

  lemma {:induction false} LexTransitive(a: Label, b: Label, c: Label)
    requires LexLess(a, b) && LexLess(b, c)
    ensures LexLess(a, c)
  {
    if a != [] && a[0] == b[0] && b[0] == c[0] {
      LexTransitive(a[1..], b[1..], c[1..]);
    }
  }

  lemma {:induction false} LexTotal(a: Label, b: Label)
    requires a != b
    ensures LexLess(a, b) || LexLess(b, a)
  {
    if a != [] && b != [] && a[0] == b[0] {
      assert a == [a[0]] + a[1..] && b == [b[0]] + b[1..];
      LexTotal(a[1..], b[1..]);
    }
  }

  lemma LexAsymmetric(a: Label, b: Label)
    requires LexLess(a, b)
    ensures !LexLess(b, a)
  {
    if LexLess(b, a) {
      LexTransitive(a, b, a);
      LexIrreflexive(a);
    }
  }

  predicate StrictlySorted(s: seq<Label>)
  {
    forall i, j :: 0 <= i < j < |s| ==> LexLess(s[i], s[j])
  }

  predicate Distinct(s: seq<Label>)
  {
    forall i, j :: 0 <= i < j < |s| ==> s[i] != s[j]
  }

  lemma SortedIsDistinct(s: seq<Label>)
    requires StrictlySorted(s)
    ensures Distinct(s)
  {
    forall i, j | 0 <= i < j < |s| ensures s[i] != s[j] {
      LexIrreflexive(s[i]);
    }
  }

  /** Puts `x` before every larger element of `s` (`s` itself sorted). */
  lemma SortedCons(x: Label, s: seq<Label>)
    requires StrictlySorted(s)
    requires forall y :: y in s ==> LexLess(x, y)
    ensures StrictlySorted([x] + s)
  {
    var r := [x] + s;
    forall i, j | 0 <= i < j < |r| ensures LexLess(r[i], r[j]) {
      if i > 0 {
        assert r[i] == s[i - 1] && r[j] == s[j - 1];
      } else {
        assert r[j] == s[j - 1] && s[j - 1] in s;
      }
    }
  }

  /** One step of building the sorted enumeration of a set of labels:
      inserts `x` into the strictly increasing `s` unless it is already there. */
  function Insert(x: Label, s: seq<Label>): (r: seq<Label>)
    requires StrictlySorted(s)
    ensures StrictlySorted(r)
    ensures forall y :: y in r <==> y == x || y in s
  {
    if s == [] then [x]
    else if x == s[0] then s
    else if LexLess(x, s[0]) then
      BelowHead(x, s);
      SortedCons(x, s);
      [x] + s
    else
      LexTotal(x, s[0]);
      var rest := Insert(x, s[1..]);
      assert forall y :: y in rest ==> LexLess(s[0], y) by {
        forall y | y in s[1..] ensures LexLess(s[0], y) {
          var k :| 0 <= k < |s[1..]| && s[1..][k] == y;
          assert s[k + 1] == y;
        }
      }
      SortedCons(s[0], rest);
      assert forall y :: y in s <==> y == s[0] || y in s[1..] by {
        assert s == [s[0]] + s[1..];
      }
      [s[0]] + rest
  }

  /** Helper for Insert: a label below the head of a sorted sequence, or below
      every element, is below every element. */
  lemma BelowHead(x: Label, s: seq<Label>)
    requires s != [] && StrictlySorted(s)
    requires LexLess(x, s[0]) || forall y :: y in s ==> LexLess(x, y)
    ensures forall y :: y in s ==> LexLess(x, y)
  {
    forall y | y in s ensures LexLess(x, y) {
      var k :| 0 <= k < |s| && s[k] == y;
      if k > 0 && LexLess(x, s[0]) {
        LexTransitive(x, s[0], s[k]);
      }
    }
  }

  /** Inserts every label of `xs` into `acc`. */
  function InsertAll(xs: seq<Label>, acc: seq<Label>): (r: seq<Label>)
    requires StrictlySorted(acc)
    ensures StrictlySorted(r)
    ensures forall y :: y in r <==> y in xs || y in acc
  {
    if xs == [] then acc
    else
      var r := InsertAll(xs[1..], Insert(xs[0], acc));
      assert forall y :: y in xs <==> y == xs[0] || y in xs[1..] by {
        assert xs == [xs[0]] + xs[1..];
      }
      r
  }

  /** Two strictly increasing sequences with the same elements are equal:
      the sorted enumeration of a set is unique. */
  lemma {:induction false} SortedUnique(s: seq<Label>, t: seq<Label>)
    requires StrictlySorted(s) && StrictlySorted(t)
    requires forall y :: y in s <==> y in t
    ensures s == t
  {
    SameElementsBothEmpty(s, t);
    if s != [] {
      if s[0] != t[0] {
        assert s[0] in t;
        var k :| 0 <= k < |t| && t[k] == s[0];
        assert t[0] in s;
        var m :| 0 <= m < |s| && s[m] == t[0];
        assert LexLess(t[0], s[0]);
        assert LexLess(s[0], t[0]);
        LexAsymmetric(s[0], t[0]);
        assert false;
      }
      forall y ensures y in s[1..] <==> y in t[1..] {
        SortedHeadIsLeast(s, y);
        SortedHeadIsLeast(t, y);
      }
      SortedUnique(s[1..], t[1..]);
      assert s == [s[0]] + s[1..] && t == [t[0]] + t[1..];
    }
  }

  lemma SameElementsBothEmpty(s: seq<Label>, t: seq<Label>)
    requires forall y :: y in s <==> y in t
    ensures s == [] <==> t == []
  {
    if s != [] {
      assert s[0] in t;
    }
    if t != [] {
      assert t[0] in s;
    }
  }

  /** In a strictly increasing sequence the head occurs nowhere else. */
  lemma SortedHeadIsLeast(s: seq<Label>, y: Label)
    requires s != [] && StrictlySorted(s)
    ensures y in s[1..] <==> y in s && y != s[0]
  {
    if y in s[1..] {
      var k :| 0 <= k < |s[1..]| && s[1..][k] == y;
      assert s[k + 1] == y;
      LexIrreflexive(s[0]);
    }
    if y in s && y != s[0] {
      var k :| 0 <= k < |s| && s[k] == y;
      assert s[1..][k - 1] == y;
    }
  }

  /** `{s: i for i, s in enumerate(states)}`: each label maps to its position;
      when a label occurs twice the later position overwrites the earlier. */
  function IndexMap(s: seq<Label>): (m: map<Label, int>)
    ensures m.Keys == set x | x in s
    ensures forall x :: x in m ==> 0 <= m[x] < |s| && s[m[x]] == x
    ensures forall j :: 0 <= j < |s| ==> j <= m[s[j]]
  {
    if s == [] then map[]
    else
      var init, x := s[..|s| - 1], s[|s| - 1];
      var m := IndexMap(init);
      assert forall y :: y in s <==> y in init || y == x by {
        assert s == init + [x];
      }
      assert forall j :: 0 <= j < |init| ==> init[j] == s[j];
      m[x := |s| - 1]
  }

  /** On distinct labels the index map is a bijection onto the positions. */
  lemma IndexMapOfDistinct(s: seq<Label>)
    requires Distinct(s)
    ensures forall i :: 0 <= i < |s| ==> IndexMap(s)[s[i]] == i
    ensures |IndexMap(s)| == |s|
  {
    DistinctCard(s);
  }

  lemma {:induction false} DistinctCard(s: seq<Label>)
    requires Distinct(s)
    ensures |set x | x in s| == |s|
  {
    if s != [] {
      var init := s[..|s| - 1];
      DistinctCard(init);
      assert (set x | x in s) == (set x | x in init) + {s[|s| - 1]} by {
        assert s == init + [s[|s| - 1]];
      }
      assert s[|s| - 1] !in init;
    }
  }
}
