/** Committee helpers of A_committee_size_7/utility_functions.py: `utility`,
    `symmetric_difference`, `swaps` and `committees_obtained_by_swap`.
    Committees and ballots are tuples of alternatives, modelled as lists. */
module Committees {
  import opened Collections

  // ---------------------------------------------------------------------------
  // utility

  /** `utility(ballot, committee)`: the number of committee positions whose
      alternative the ballot approves. */
  function Utility(ballot: seq<Alt>, committee: seq<Alt>): nat
  {
    if committee == [] then 0
    else
      Utility(ballot, committee[..|committee| - 1]) + (if committee[|committee| - 1] in ballot then 1 else 0)
  }

  method ComputeUtility(ballot: seq<Alt>, committee: seq<Alt>) returns (utility: nat)
    ensures utility == Utility(ballot, committee)
  {
    utility := 0;
    var ballotSet := Elems(ballot);
    for i := 0 to |committee|
      invariant utility == Utility(ballot, committee[..i])
    {
      assert committee[..i + 1][..i] == committee[..i];
      if committee[i] in ballotSet {
        utility := utility + 1;
      }
    }
    assert committee[..|committee|] == committee;
  }

  /** The commented-out reference of line 43: for a committee without repeats,
      the utility is the number of approved committee members. */
  lemma {:induction false} UtilityIsOverlap(ballot: seq<Alt>, committee: seq<Alt>)
    requires NoDup(committee)
    ensures Utility(ballot, committee) == |Elems(ballot) * Elems(committee)|
  {
    if committee != [] {
      var init, x := committee[..|committee| - 1], committee[|committee| - 1];
      assert committee == init + [x];
      assert NoDup(init);
      UtilityIsOverlap(ballot, init);
      assert Elems(committee) == Elems(init) + {x};
      assert x !in Elems(init);
      assert Elems(ballot) * Elems(committee) == Elems(committee) * Elems(ballot);
      assert Elems(ballot) * Elems(init) == Elems(init) * Elems(ballot);
      OverlapInsert(Elems(init), Elems(ballot), x);
    }
  }

  /** The utility lies between 0 and the committee size. */
  lemma {:induction false} UtilityBound(ballot: seq<Alt>, committee: seq<Alt>)
    ensures Utility(ballot, committee) <= |committee|
  {
    if committee != [] {
      UtilityBound(ballot, committee[..|committee| - 1]);
    }
  }

  /** An approved committee member makes the utility positive. */
  lemma {:induction false} UtilityPositive(ballot: seq<Alt>, committee: seq<Alt>, x: Alt)
    requires x in ballot && x in committee
    ensures Utility(ballot, committee) >= 1
  {
    var init := committee[..|committee| - 1];
    if committee[|committee| - 1] != x {
      assert committee == init + [committee[|committee| - 1]];
      assert x in init;
      UtilityPositive(ballot, init, x);
    }
  }

  // ---------------------------------------------------------------------------
  // symmetric_difference

  /** `symmetric_difference(com1, com2)`: the size of `set(com1) ^ set(com2)`. */
  function SymmetricDifference(com1: seq<Alt>, com2: seq<Alt>): (r: nat)
    ensures r == |Elems(com1) - Elems(com2)| + |Elems(com2) - Elems(com1)|
    ensures r == 0 <==> Elems(com1) == Elems(com2)
  {
    var a, b := Elems(com1), Elems(com2);
    SymmetricDifferenceCard(a, b);
    |(a - b) + (b - a)|
  }

  lemma SymmetricDifferenceCard(a: set<Alt>, b: set<Alt>)
    ensures |(a - b) + (b - a)| == |a - b| + |b - a|
    ensures |(a - b) + (b - a)| == 0 <==> a == b
  {
    assert (a - b) * (b - a) == {};
    if a != b {
      var x :| x in a - b || x in b - a;
      assert x in (a - b) + (b - a);
    }
  }

  lemma SymmetricDifferenceSymmetric(com1: seq<Alt>, com2: seq<Alt>)
    ensures SymmetricDifference(com1, com2) == SymmetricDifference(com2, com1)
  {
  }

  // ---------------------------------------------------------------------------
  // swaps

  /** The inner loop of `swaps` for one member x: `(x, y)` for each y of ys
      that is not in the committee, in the order of ys. */
  function SwapsOf(x: Alt, ys: seq<Alt>, committee: seq<Alt>): seq<(Alt, Alt)>
  {
    if ys == [] then []
    else
      var y := ys[|ys| - 1];
      SwapsOf(x, ys[..|ys| - 1], committee) + (if y !in committee then [(x, y)] else [])
  }

  /** The swaps for the members xs, in the order of xs. */
  function SwapsFrom(A: seq<Alt>, xs: seq<Alt>, committee: seq<Alt>): seq<(Alt, Alt)>
  {
    if xs == [] then []
    else SwapsFrom(A, xs[..|xs| - 1], committee) + SwapsOf(xs[|xs| - 1], A, committee)
  }

  /** The value `swaps(A, committee)` returns. */
  function Swaps(A: seq<Alt>, committee: seq<Alt>): seq<(Alt, Alt)>
  {
    SwapsFrom(A, committee, committee)
  }

  method ComputeSwaps(A: seq<Alt>, committee: seq<Alt>) returns (allSwaps: seq<(Alt, Alt)>)
    ensures allSwaps == Swaps(A, committee)
  {
    allSwaps := [];
    for i := 0 to |committee|
      invariant allSwaps == SwapsFrom(A, committee[..i], committee)
    {
      var x := committee[i];
      ghost var before := allSwaps;
      for j := 0 to |A|
        invariant allSwaps == before + SwapsOf(x, A[..j], committee)
      {
        var y := A[j];
        assert A[..j + 1][..j] == A[..j];
        if y !in committee {
          allSwaps := allSwaps + [(x, y)];
        }
      }
      assert A[..|A|] == A;
      assert committee[..i + 1][..i] == committee[..i];
    }
    assert committee[..|committee|] == committee;
  }

  lemma {:induction false} SwapsOfMember(x: Alt, ys: seq<Alt>, committee: seq<Alt>, p: (Alt, Alt))
    ensures p in SwapsOf(x, ys, committee) <==> p.0 == x && p.1 in ys && p.1 !in committee
  {
    if ys != [] {
      var init := ys[..|ys| - 1];
      assert ys == init + [ys[|ys| - 1]];
      SwapsOfMember(x, init, committee, p);
    }
  }

  lemma {:induction false} SwapsFromMember(A: seq<Alt>, xs: seq<Alt>, committee: seq<Alt>, p: (Alt, Alt))
    ensures p in SwapsFrom(A, xs, committee) <==> p.0 in xs && p.1 in A && p.1 !in committee
  {
    if xs != [] {
      var init := xs[..|xs| - 1];
      assert xs == init + [xs[|xs| - 1]];
      SwapsFromMember(A, init, committee, p);
      SwapsOfMember(xs[|xs| - 1], A, committee, p);
    }
  }

  /** `swaps(A, committee)` lists exactly the pairs of a member and an
      alternative of A outside the committee. */
  lemma SwapsMember(A: seq<Alt>, committee: seq<Alt>, x: Alt, y: Alt)
    ensures (x, y) in Swaps(A, committee) <==> x in committee && y in A && y !in committee
  {
    SwapsFromMember(A, committee, committee, (x, y));
  }

  lemma {:induction false} SwapsOfLength(x: Alt, ys: seq<Alt>, committee: seq<Alt>)
    requires NoDup(ys)
    ensures |SwapsOf(x, ys, committee)| == |Elems(ys) - Elems(committee)|
  {
    if ys != [] {
      var init, y := ys[..|ys| - 1], ys[|ys| - 1];
      assert ys == init + [y];
      assert NoDup(init);
      SwapsOfLength(x, init, committee);
      assert y !in Elems(init);
      if y in committee {
        assert Elems(ys) - Elems(committee) == Elems(init) - Elems(committee);
      } else {
        assert Elems(ys) - Elems(committee) == (Elems(init) - Elems(committee)) + {y};
      }
    }
  }

  lemma {:induction false} SwapsFromLength(A: seq<Alt>, xs: seq<Alt>, committee: seq<Alt>)
    requires NoDup(A)
    ensures |SwapsFrom(A, xs, committee)| == |xs| * |Elems(A) - Elems(committee)|
  {
    if xs != [] {
      var m := |Elems(A) - Elems(committee)|;
      SwapsFromLength(A, xs[..|xs| - 1], committee);
      SwapsOfLength(xs[|xs| - 1], A, committee);
      assert |SwapsFrom(A, xs, committee)| == (|xs| - 1) * m + m;
      assert (|xs| - 1) * m + m == |xs| * m;
    }
  }

  /** For distinct members drawn from a duplicate-free A there are
      |committee| * (|A| - |committee|) swaps. */
  lemma SwapsLength(A: seq<Alt>, committee: seq<Alt>)
    requires NoDup(A) && NoDup(committee) && Elems(committee) <= Elems(A)
    ensures |Swaps(A, committee)| == |committee| * (|A| - |committee|)
  {
    SwapsFromLength(A, committee, committee);
    NoDupCard(A);
    NoDupCard(committee);
    assert Elems(A) == (Elems(A) - Elems(committee)) + Elems(committee);
  }

  lemma {:induction false} SwapsOfNoDup(x: Alt, ys: seq<Alt>, committee: seq<Alt>)
    requires NoDup(ys)
    ensures NoDup(SwapsOf(x, ys, committee))
  {
    if ys != [] {
      var init, y := ys[..|ys| - 1], ys[|ys| - 1];
      assert ys == init + [y];
      assert NoDup(init);
      SwapsOfNoDup(x, init, committee);
      SwapsOfMember(x, init, committee, (x, y));
    }
  }

  lemma {:induction false} SwapsFromNoDup(A: seq<Alt>, xs: seq<Alt>, committee: seq<Alt>)
    requires NoDup(A) && NoDup(xs)
    ensures NoDup(SwapsFrom(A, xs, committee))
  {
    if xs != [] {
      var init, x := xs[..|xs| - 1], xs[|xs| - 1];
      assert xs == init + [x];
      assert NoDup(init);
      SwapsFromNoDup(A, init, committee);
      SwapsOfNoDup(x, A, committee);
      var s1, s2 := SwapsFrom(A, init, committee), SwapsOf(x, A, committee);
      forall i, j | 0 <= i < |s1| && 0 <= j < |s2| ensures s1[i] != s2[j] {
        SwapsFromMember(A, init, committee, s1[i]);
        SwapsOfMember(x, A, committee, s2[j]);
      }
      var s := s1 + s2;
      forall i, j | 0 <= i < j < |s| ensures s[i] != s[j] {
        if j < |s1| {
          assert s[i] == s1[i] && s[j] == s1[j];
        } else if i >= |s1| {
          assert s[i] == s2[i - |s1|] && s[j] == s2[j - |s1|];
        } else {
          assert s[i] == s1[i] && s[j] == s2[j - |s1|];
        }
      }
    }
  }

  /** No swap is listed twice. */
  lemma SwapsNoDup(A: seq<Alt>, committee: seq<Alt>)
    requires NoDup(A) && NoDup(committee)
    ensures NoDup(Swaps(A, committee))
  {
    SwapsFromNoDup(A, committee, committee);
  }

  // ---------------------------------------------------------------------------
  // committees_obtained_by_swap

  /** `tuple(sorted(set(committee) - {x} | {y}))`. */
  function Swapped(committee: seq<Alt>, x: Alt, y: Alt): seq<Alt>
  {
    SortedElems((Elems(committee) - {x}) + {y})
  }

  /** The committees produced, in order, by a list of swaps. */
  function ObtainedFrom(committee: seq<Alt>, pairs: seq<(Alt, Alt)>): seq<seq<Alt>>
  {
    if pairs == [] then []
    else
      var p := pairs[|pairs| - 1];
      ObtainedFrom(committee, pairs[..|pairs| - 1]) + [Swapped(committee, p.0, p.1)]
  }

  /** The value `committees_obtained_by_swap(A, committee)` returns: the
      loops of `swaps`, collecting the swapped committees. */
  function CommitteesObtainedBySwap(A: seq<Alt>, committee: seq<Alt>): seq<seq<Alt>>
  {
    ObtainedFrom(committee, Swaps(A, committee))
  }

  method ComputeCommitteesObtainedBySwap(A: seq<Alt>, committee: seq<Alt>) returns (obtained: seq<seq<Alt>>)
    ensures obtained == CommitteesObtainedBySwap(A, committee)
  {
    obtained := [];
    for i := 0 to |committee|
      invariant obtained == ObtainedFrom(committee, SwapsFrom(A, committee[..i], committee))
    {
      var x := committee[i];
      var fromX := ObtainedByMember(A, committee, x);
      ObtainedFromAppend(committee, SwapsFrom(A, committee[..i], committee), SwapsOf(x, A, committee));
      obtained := obtained + fromX;
      assert committee[..i + 1][..i] == committee[..i];
    }
    assert committee[..|committee|] == committee;
  }

  /** The inner loop of `committees_obtained_by_swap`, for the member x. */
  method ObtainedByMember(A: seq<Alt>, committee: seq<Alt>, x: Alt) returns (obtained: seq<seq<Alt>>)
    ensures obtained == ObtainedFrom(committee, SwapsOf(x, A, committee))
  {
    obtained := [];
    for j := 0 to |A|
      invariant obtained == ObtainedFrom(committee, SwapsOf(x, A[..j], committee))
    {
      var y := A[j];
      SwapsOfSnoc(x, A, j, committee);
      if y !in committee {
        var obtainedCommittee := (Elems(committee) - {x}) + {y};
        ObtainedFromSnoc(committee, SwapsOf(x, A[..j], committee), (x, y));
        obtained := obtained + [SortedElems(obtainedCommittee)];
        assert SwapsOf(x, A[..j + 1], committee) == SwapsOf(x, A[..j], committee) + [(x, y)];
      } else {
        assert SwapsOf(x, A[..j + 1], committee) == SwapsOf(x, A[..j], committee);
      }
    }
    assert A[..|A|] == A;
  }

  lemma {:induction false} ObtainedFromAppend(committee: seq<Alt>, p: seq<(Alt, Alt)>, q: seq<(Alt, Alt)>)
    ensures ObtainedFrom(committee, p + q) == ObtainedFrom(committee, p) + ObtainedFrom(committee, q)
  {
    if q == [] {
      assert p + q == p;
    } else {
      var init, last := q[..|q| - 1], q[|q| - 1];
      var s := [Swapped(committee, last.0, last.1)];
      assert p + q == (p + init) + [last];
      assert q == init + [last];
      calc {
        ObtainedFrom(committee, p + q);
        { ObtainedFromSnoc(committee, p + init, last); }
        ObtainedFrom(committee, p + init) + s;
        { ObtainedFromAppend(committee, p, init); }
        ObtainedFrom(committee, p) + ObtainedFrom(committee, init) + s;
        { ObtainedFromSnoc(committee, init, last); }
        ObtainedFrom(committee, p) + ObtainedFrom(committee, q);
      }
    }
  }

  lemma SwapsOfSnoc(x: Alt, A: seq<Alt>, j: nat, committee: seq<Alt>)
    requires j < |A|
    ensures SwapsOf(x, A[..j + 1], committee) ==
            SwapsOf(x, A[..j], committee) + (if A[j] !in committee then [(x, A[j])] else [])
  {
    assert A[..j + 1][..j] == A[..j];
  }

  lemma ObtainedFromSnoc(committee: seq<Alt>, pairs: seq<(Alt, Alt)>, p: (Alt, Alt))
    ensures ObtainedFrom(committee, pairs + [p]) == ObtainedFrom(committee, pairs) + [Swapped(committee, p.0, p.1)]
  {
    assert (pairs + [p])[..|pairs|] == pairs;
  }

  lemma {:induction false} ObtainedFromMember(committee: seq<Alt>, pairs: seq<(Alt, Alt)>, d: seq<Alt>)
    ensures d in ObtainedFrom(committee, pairs) <==> exists p :: p in pairs && d == Swapped(committee, p.0, p.1)
  {
    if pairs != [] {
      var init := pairs[..|pairs| - 1];
      assert pairs == init + [pairs[|pairs| - 1]];
      ObtainedFromMember(committee, init, d);
    }
  }

  /** The committee obtained by a swap out of a member x into an outsider y. */
  lemma SwappedFacts(committee: seq<Alt>, x: Alt, y: Alt)
    requires NoDup(committee) && x in committee && y !in committee
    ensures var d := Swapped(committee, x, y);
      Increasing(d) && |d| == |committee| &&
      Elems(d) == (Elems(committee) - {x}) + {y} &&
      SymmetricDifference(committee, d) == 2
  {
    var C := Elems(committee);
    var d := Swapped(committee, x, y);
    SortedElemsSpec((C - {x}) + {y});
    NoDupCard(committee);
    assert |C - {x}| == |C| - 1;
    assert Elems(d) == (C - {x}) + {y};
    assert C - Elems(d) == {x};
    assert Elems(d) - C == {y};
  }

  /** A committee of the same size at symmetric difference 2 arises from a
      single swap. */
  lemma SwapDistanceTwo(committee: seq<Alt>, d: seq<Alt>)
    requires NoDup(committee) && Increasing(d)
    requires |d| == |committee| && SymmetricDifference(committee, d) == 2
    ensures exists x, y :: x in committee && y in d && y !in committee && d == Swapped(committee, x, y)
  {
    var C, D := Elems(committee), Elems(d);
    NoDupCard(d);
    NoDupCard(committee);
    assert C == (C - D) + (C * D);
    assert D == (D - C) + (C * D);
    Singleton(C - D);
    Singleton(D - C);
    var x :| C - D == {x};
    var y :| D - C == {y};
    assert x in C && y in D && y !in C;
    assert D == (C - {x}) + {y};
    SortedElemsSpec(D);
    IncreasingUnique(d, Swapped(committee, x, y));
  }

  /** For a duplicate-free committee inside A, the committees obtained by a
      swap are exactly the sorted committees of the same size inside A at
      symmetric difference 2 from it. */
  lemma ObtainedMember(A: seq<Alt>, committee: seq<Alt>, d: seq<Alt>)
    requires NoDup(committee) && Elems(committee) <= Elems(A)
    ensures d in CommitteesObtainedBySwap(A, committee) <==>
            Increasing(d) && Elems(d) <= Elems(A) && |d| == |committee| && SymmetricDifference(committee, d) == 2
  {
    ObtainedFromMember(committee, Swaps(A, committee), d);
    if d in CommitteesObtainedBySwap(A, committee) {
      var p :| p in Swaps(A, committee) && d == Swapped(committee, p.0, p.1);
      SwapsMember(A, committee, p.0, p.1);
      SwappedFacts(committee, p.0, p.1);
    }
    if Increasing(d) && Elems(d) <= Elems(A) && |d| == |committee| && SymmetricDifference(committee, d) == 2 {
      SwapDistanceTwo(committee, d);
      var x, y :| x in committee && y in d && y !in committee && d == Swapped(committee, x, y);
      assert y in Elems(d);
      SwapsMember(A, committee, x, y);
    }
  }

  /** A swap changes the utility of a ballot by losing x and gaining y. */
  lemma SwapUtility(ballot: seq<Alt>, committee: seq<Alt>, x: Alt, y: Alt)
    requires NoDup(committee) && x in committee && y !in committee
    ensures Utility(ballot, Swapped(committee, x, y)) ==
            Utility(ballot, committee) - (if x in ballot then 1 else 0) + (if y in ballot then 1 else 0)
  {
    var d := Swapped(committee, x, y);
    SwappedFacts(committee, x, y);
    UtilityIsOverlap(ballot, committee);
    UtilityIsOverlap(ballot, d);
    assert x in Elems(committee) && y !in Elems(committee);
    SwapOverlap(Elems(ballot), Elems(committee), x, y);
  }

  lemma SwapOverlap(B: set<Alt>, C: set<Alt>, x: Alt, y: Alt)
    requires x in C && y !in C
    ensures |B * ((C - {x}) + {y})| == |B * C| - (if x in B then 1 else 0) + (if y in B then 1 else 0)
  {
    var I := B * C;
    var J := B * (C - {x});
    if x in B {
      assert I == J + {x};
    } else {
      assert I == J;
    }
    if y in B {
      assert B * ((C - {x}) + {y}) == J + {y};
    } else {
      assert B * ((C - {x}) + {y}) == J;
    }
  }
}
