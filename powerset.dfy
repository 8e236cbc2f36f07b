/** The ballot universe: `powerset(iterable)` of A_committee_size_7/utility_functions.py,
    built on `itertools.combinations`. */
module Powerset {
  import opened Collections

  /** `itertools.combinations(xs, n)`: the n-element sub-tuples of xs, in
      lexicographic order of positions. */
  function Combinations(xs: seq<Alt>, n: nat): seq<seq<Alt>>
    decreases |xs|
  {
    if n == 0 then [[]]
    else if xs == [] then []
    else Prepend(xs[0], Combinations(xs[1..], n - 1)) + Combinations(xs[1..], n)
  }

  /** `chain.from_iterable(combinations(xs, n) for n in range(lo, hi))`. */
  function CombinationsOfSizes(xs: seq<Alt>, lo: nat, hi: nat): seq<seq<Alt>>
    decreases hi - lo
  {
    if lo >= hi then [] else Combinations(xs, lo) + CombinationsOfSizes(xs, lo + 1, hi)
  }

  /** `powerset(xs)`: combinations of every size from 1 up to len(xs) - 1. */
  function Powerset(xs: seq<Alt>): seq<seq<Alt>>
  {
    CombinationsOfSizes(xs, 1, |xs|)
  }

  lemma TailElems(xs: seq<Alt>, x: Alt)
    requires Increasing(xs) && xs != []
    requires x in Elems(xs) && x != xs[0]
    ensures x in Elems(xs[1..]) && xs[0] < x
  {
    var i :| 0 <= i < |xs| && xs[i] == x;
    assert xs[1..][i - 1] == x;
  }

  lemma TailBounds(xs: seq<Alt>)
    requires Increasing(xs) && xs != []
    ensures Increasing(xs[1..])
    ensures forall y | y in Elems(xs[1..]) :: y in Elems(xs) && xs[0] < y
  {
    forall y | y in Elems(xs[1..]) ensures y in Elems(xs) && xs[0] < y {
      var i :| 0 <= i < |xs[1..]| && xs[1..][i] == y;
      assert xs[i + 1] == y;
    }
  }

  lemma {:induction false} CombinationsSound(xs: seq<Alt>, n: nat, c: seq<Alt>)
    requires Increasing(xs)
    requires c in Combinations(xs, n)
    ensures |c| == n && Increasing(c) && Elems(c) <= Elems(xs)
    decreases |xs|
  {
    if n > 0 {
      var x0, rest := xs[0], xs[1..];
      var with, without := Combinations(rest, n - 1), Combinations(rest, n);
      TailBounds(xs);
      if c in without {
        CombinationsSound(rest, n, c);
      } else {
        var i :| 0 <= i < |with| && Prepend(x0, with)[i] == c;
        var c' := with[i];
        CombinationsSound(rest, n - 1, c');
        assert c == [x0] + c';
        forall j | 0 <= j < |c'| ensures x0 < c'[j] {
          assert c'[j] in Elems(c');
        }
        IncreasingCons(x0, c');
        assert Elems(c) == {x0} + Elems(c');
      }
    }
  }

  lemma {:induction false} CombinationsComplete(xs: seq<Alt>, n: nat, c: seq<Alt>)
    requires Increasing(xs)
    requires |c| == n && Increasing(c) && Elems(c) <= Elems(xs)
    ensures c in Combinations(xs, n)
    decreases |xs|
  {
    if n == 0 {
      assert c == [];
    } else {
      assert c[0] in Elems(c);
      assert xs != [];
      var x0, rest := xs[0], xs[1..];
      var with := Combinations(rest, n - 1);
      TailBounds(xs);
      if c[0] == x0 {
        var c' := c[1..];
        assert c == [x0] + c';
        forall y | y in Elems(c') ensures y in Elems(rest) {
          var j :| 0 <= j < |c'| && c'[j] == y;
          assert c[j + 1] == y && c[0] < c[j + 1];
          assert y in Elems(c);
          TailElems(xs, y);
        }
        CombinationsComplete(rest, n - 1, c');
        var i :| 0 <= i < |with| && with[i] == c';
        assert Prepend(x0, with)[i] == c;
      } else {
        TailElems(xs, c[0]);
        forall y | y in Elems(c) ensures y in Elems(rest) {
          var j :| 0 <= j < |c| && c[j] == y;
          if j > 0 { assert c[0] < c[j]; }
          TailElems(xs, y);
        }
        CombinationsComplete(rest, n, c);
      }
    }
  }

  /** For an increasing xs (such as `range(num_alts)`), the n-combinations are
      exactly the increasing n-element lists drawn from xs. */
  lemma CombinationsSpec(xs: seq<Alt>, n: nat, c: seq<Alt>)
    requires Increasing(xs)
    ensures c in Combinations(xs, n) <==> |c| == n && Increasing(c) && Elems(c) <= Elems(xs)
  {
    if c in Combinations(xs, n) {
      CombinationsSound(xs, n, c);
    }
    if |c| == n && Increasing(c) && Elems(c) <= Elems(xs) {
      CombinationsComplete(xs, n, c);
    }
  }

  lemma {:induction false} CombinationsOfSizesSpec(xs: seq<Alt>, lo: nat, hi: nat, c: seq<Alt>)
    requires Increasing(xs)
    ensures c in CombinationsOfSizes(xs, lo, hi) <==>
              lo <= |c| < hi && Increasing(c) && Elems(c) <= Elems(xs)
    decreases hi - lo
  {
    if lo < hi {
      CombinationsSpec(xs, lo, c);
      CombinationsOfSizesSpec(xs, lo + 1, hi, c);
    }
  }

  /** The ballots are the increasing lists drawn from xs with at least one and
      fewer than len(xs) entries: neither the empty ballot nor the full ballot. */
  lemma PowersetSpec(xs: seq<Alt>, b: seq<Alt>)
    requires Increasing(xs)
    ensures b in Powerset(xs) <==> 1 <= |b| < |xs| && Increasing(b) && Elems(b) <= Elems(xs)
  {
    CombinationsOfSizesSpec(xs, 1, |xs|, b);
  }

  /** Every nonempty proper subset of xs occurs, as its sorted tuple, among the
      ballots; the empty set and the whole of xs do not. */
  lemma PowersetSubsets(xs: seq<Alt>, s: set<Alt>)
    requires Increasing(xs)
    ensures SortedElems(s) in Powerset(xs) <==> s <= Elems(xs) && s != {} && s != Elems(xs)
  {
    PowersetSpec(xs, SortedElems(s));
    SortedElemsSpec(s);
    NoDupCard(xs);
    if s <= Elems(xs) {
      SubsetCard(s, Elems(xs));
    }
  }

  /** There are at most 2^|xs| combinations of any one size. */
  lemma {:induction false} CombinationsCount(xs: seq<Alt>, n: nat)
    ensures |Combinations(xs, n)| <= Pow(2, |xs|)
    decreases |xs|
  {
    PowMonotone(2, 0, |xs|);
    if n > 0 && xs != [] {
      var with, without := Combinations(xs[1..], n - 1), Combinations(xs[1..], n);
      assert Combinations(xs, n) == Prepend(xs[0], with) + without;
      CombinationsCount(xs[1..], n - 1);
      CombinationsCount(xs[1..], n);
      assert Pow(2, |xs|) == 2 * Pow(2, |xs[1..]|);
    }
  }

  lemma {:induction false} CombinationsOfSizesCount(xs: seq<Alt>, lo: nat, hi: nat)
    requires lo <= hi
    ensures |CombinationsOfSizes(xs, lo, hi)| <= (hi - lo) * Pow(2, |xs|)
    decreases hi - lo
  {
    if lo < hi {
      CombinationsCount(xs, lo);
      CombinationsOfSizesCount(xs, lo + 1, hi);
      MulSucc(hi - lo - 1, Pow(2, |xs|));
    }
  }

  lemma MulSucc(m: nat, p: nat)
    ensures (m + 1) * p == p + m * p
  {
  }
}
