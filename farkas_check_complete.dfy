/** The completeness walk of C_recursive_PAV_rule/farkas-check-complete.py:
    `get_continuations` lists the canonical next steps (committee, T) of a
    history, and `run` walks the tree of histories from the empty one,
    checking that every history the search left unsuccessful carries a Farkas
    certificate. The alternatives are `A = range(num_alts)`. */
module FarkasCheckComplete {
  import opened Collections
  import opened Powerset
  import opened Wlog
  import opened Histories

  /** The assertions `get_continuations` can fail. */
  datatype ContinuationFailure =
    | NoPlacesLeft              // `assert places_to_fill >= 0` (line 24)
    | WlogFailed(WlogFailure)   // an assertion inside `is_wlog`

  /** `[tuple(past | set(n)) for n in ns if is_wlog(n, partition)]` (line 27),
      where `tuple` of a set lists it in increasing order. */
  function KeepCommittees(past: set<Alt>, partition: seq<seq<Alt>>, ns: seq<seq<Alt>>)
    : Result<seq<seq<Alt>>, ContinuationFailure>
  {
    if ns == [] then Ok([])
    else
      match IsWlog(ns[0], partition)
      case Err(e) => Err(WlogFailed(e))
      case Ok(keep) =>
        match KeepCommittees(past, partition, ns[1..])
        case Err(e) => Err(e)
        case Ok(rest) => Ok((if keep then [SortedElems(past + Elems(ns[0]))] else []) + rest)
  }

  /** `[T for T in ts if is_wlog(T, partition) and not set(T) <= set(committee)]`
      (lines 32-35). */
  function KeepDeviations(committee: seq<Alt>, partition: seq<seq<Alt>>, ts: seq<seq<Alt>>)
    : Result<seq<seq<Alt>>, ContinuationFailure>
  {
    if ts == [] then Ok([])
    else
      match IsWlog(ts[0], partition)
      case Err(e) => Err(WlogFailed(e))
      case Ok(canonical) =>
        match KeepDeviations(committee, partition, ts[1..])
        case Err(e) => Err(e)
        case Ok(rest) =>
          Ok((if canonical && !(Elems(ts[0]) <= Elems(committee)) then [ts[0]] else []) + rest)
  }

  /** The identifiable sets once the new committee joins them (line 31). */
  function SetsWith(history: History, committee: seq<Alt>): seq<set<Alt>>
  {
    IdentifiableSets(history) + [Elems(committee)]
  }

  /** The deviations considered for a new committee (lines 31-35): every
      tuple of 1 to k alternatives that is canonical for the partition of the
      identifiable sets with the new committee and is not inside it. */
  function Deviations(numAlts: nat, k: nat, history: History, committee: seq<Alt>)
    : Result<seq<seq<Alt>>, ContinuationFailure>
  {
    var A := Range(numAlts);
    KeepDeviations(committee, WlogPartition(A, SetsWith(history, committee)), CombinationsOfSizes(A, 1, k + 1))
  }

  /** `history + ((committee, T),)` for each deviation T in order. */
  function Extend(history: History, committee: seq<Alt>, ts: seq<seq<Alt>>): (r: seq<History>)
    ensures |r| == |ts|
    ensures forall i | 0 <= i < |ts| :: r[i] == history + [Step(committee, ts[i])]
  {
    seq(|ts|, i requires 0 <= i < |ts| => history + [Step(committee, ts[i])])
  }

  /** The loop of lines 29-38 over the new committees. */
  function Extensions(numAlts: nat, k: nat, history: History, committees: seq<seq<Alt>>)
    : Result<seq<History>, ContinuationFailure>
  {
    if committees == [] then Ok([])
    else
      match Deviations(numAlts, k, history, committees[0])
      case Err(e) => Err(e)
      case Ok(ts) =>
        match Extensions(numAlts, k, history, committees[1..])
        case Err(e) => Err(e)
        case Ok(rest) => Ok(Extend(history, committees[0], ts) + rest)
  }

  /** The alternatives no past deviation has used (line 22). */
  function Remaining(numAlts: nat, history: History): set<Alt>
  {
    Elems(Range(numAlts)) - PastDeviations(history)
  }

  /** The newcomer tuples to consider (line 27): `combinations` of the
      remaining alternatives, taken in increasing order, of the size still to
      fill. */
  function Newcomers(numAlts: nat, k: nat, history: History): seq<seq<Alt>>
    requires |PastDeviations(history)| <= k
  {
    Combinations(SortedElems(Remaining(numAlts, history)), k - |PastDeviations(history)|)
  }

  /** The new committees of line 27. */
  function NewCommittees(numAlts: nat, k: nat, history: History): Result<seq<seq<Alt>>, ContinuationFailure>
    requires |PastDeviations(history)| <= k
  {
    var partition := WlogPartition(Range(numAlts), IdentifiableSets(history));
    KeepCommittees(PastDeviations(history), partition, Newcomers(numAlts, k, history))
  }

  /** The value `get_continuations(k, history)` returns, or the assertion it
      fails. */
  function Continuations(numAlts: nat, k: nat, history: History): Result<seq<History>, ContinuationFailure>
  {
    if |PastDeviations(history)| > k then Err(NoPlacesLeft)
    else
      match NewCommittees(numAlts, k, history)
      case Err(e) => Err(e)
      case Ok(committees) => Extensions(numAlts, k, history, committees)
  }

  /** `new_histories` after the committees before the remaining ones have
      been handled. */
  function Prefixed(prefix: seq<History>, r: Result<seq<History>, ContinuationFailure>)
    : Result<seq<History>, ContinuationFailure>
  {
    match r
    case Err(e) => Err(e)
    case Ok(v) => Ok(prefix + v)
  }

  lemma ExtensionsStep(numAlts: nat, k: nat, history: History, committees: seq<seq<Alt>>, i: nat,
                       done: seq<History>, ts: seq<seq<Alt>>)
    requires i < |committees|
    requires Deviations(numAlts, k, history, committees[i]) == Ok(ts)
    ensures Prefixed(done, Extensions(numAlts, k, history, committees[i..])) ==
            Prefixed(done + Extend(history, committees[i], ts), Extensions(numAlts, k, history, committees[i + 1..]))
  {
    assert committees[i..][0] == committees[i];
    assert committees[i..][1..] == committees[i + 1..];
    match Extensions(numAlts, k, history, committees[i + 1..])
    case Err(e) =>
    case Ok(rest) =>
      assert done + (Extend(history, committees[i], ts) + rest) == (done + Extend(history, committees[i], ts)) + rest;
  }

  /** `get_continuations(k, history)`. */
  method GetContinuations(numAlts: nat, k: nat, history: History)
    returns (r: Result<seq<History>, ContinuationFailure>)
    ensures r == Continuations(numAlts, k, history)
  {
    var A := Range(numAlts);
    var past := PastDeviations(history);
    if |past| > k {
      return Err(NoPlacesLeft);
    }
    var partition := GenerateWlogPartition(A, IdentifiableSets(history));
    var kept := KeepCommittees(past, partition, Newcomers(numAlts, k, history));
    if kept.Err? {
      return Err(kept.error);
    }
    var committees := kept.value;
    var newHistories: seq<History> := [];
    PrefixedNothing(Extensions(numAlts, k, history, committees));
    assert committees[0..] == committees;
    for i := 0 to |committees|
      invariant Prefixed(newHistories, Extensions(numAlts, k, history, committees[i..])) ==
                Extensions(numAlts, k, history, committees)
    {
      var committee := committees[i];
      var partition' := GenerateWlogPartition(A, SetsWith(history, committee));
      var possible := KeepDeviations(committee, partition', CombinationsOfSizes(A, 1, k + 1));
      if possible.Err? {
        assert committees[i..][0] == committee;
        return Err(possible.error);
      }
      var ts := possible.value;
      ExtensionsStep(numAlts, k, history, committees, i, newHistories, ts);
      newHistories := AppendSteps(history, committee, ts, newHistories);
    }
    PrefixedDone(newHistories, Extensions(numAlts, k, history, committees[|committees|..]));
    return Ok(newHistories);
  }

  /** Lines 37-38: `new_histories.append(history + ((committee, T),))` for
      each T. */
  method AppendSteps(history: History, committee: seq<Alt>, ts: seq<seq<Alt>>, newHistories: seq<History>)
    returns (appended: seq<History>)
    ensures appended == newHistories + Extend(history, committee, ts)
  {
    appended := newHistories;
    for j := 0 to |ts|
      invariant appended == newHistories + Extend(history, committee, ts[..j])
    {
      assert Extend(history, committee, ts[..j + 1]) ==
             Extend(history, committee, ts[..j]) + [history + [Step(committee, ts[j])]];
      appended := appended + [history + [Step(committee, ts[j])]];
    }
    assert ts[..|ts|] == ts;
  }

  lemma PrefixedNothing(r: Result<seq<History>, ContinuationFailure>)
    ensures Prefixed([], r) == r
  {
    match r
    case Err(e) =>
    case Ok(v) => assert [] + v == v;
  }

  lemma PrefixedDone(done: seq<History>, r: Result<seq<History>, ContinuationFailure>)
    requires r == Ok([])
    ensures Prefixed(done, r) == Ok(done)
  {
    assert done + [] == done;
  }

  // ---------------------------------------------------------------------------
  // The filters of lines 27 and 32-35

  lemma {:induction false} KeepCommitteesOk(past: set<Alt>, partition: seq<seq<Alt>>, ns: seq<seq<Alt>>)
    requires forall n | n in ns :: IsWlog(n, partition).Ok?
    ensures KeepCommittees(past, partition, ns).Ok?
    ensures |KeepCommittees(past, partition, ns).value| <= |ns|
  {
    if ns != [] {
      assert ns[0] in ns;
      assert forall n | n in ns[1..] :: n in ns;
      KeepCommitteesOk(past, partition, ns[1..]);
    }
  }

  /** A committee is kept exactly when it comes from a canonical newcomer tuple. */
  lemma {:induction false} KeepCommitteesMember(past: set<Alt>, partition: seq<seq<Alt>>, ns: seq<seq<Alt>>,
                                                c: seq<Alt>)
    requires forall n | n in ns :: IsWlog(n, partition).Ok?
    ensures KeepCommittees(past, partition, ns).Ok?
    ensures c in KeepCommittees(past, partition, ns).value <==>
            exists n :: n in ns && IsWlog(n, partition) == Ok(true) && c == SortedElems(past + Elems(n))
  {
    KeepCommitteesOk(past, partition, ns);
    if ns != [] {
      assert ns[0] in ns;
      assert forall n | n in ns[1..] :: n in ns;
      KeepCommitteesMember(past, partition, ns[1..], c);
      if exists n :: n in ns && IsWlog(n, partition) == Ok(true) && c == SortedElems(past + Elems(n)) {
        var n :| n in ns && IsWlog(n, partition) == Ok(true) && c == SortedElems(past + Elems(n));
        if n != ns[0] {
          assert n in ns[1..];
        }
      }
    }
  }

  lemma {:induction false} KeepDeviationsOk(committee: seq<Alt>, partition: seq<seq<Alt>>, ts: seq<seq<Alt>>)
    requires forall t | t in ts :: IsWlog(t, partition).Ok?
    ensures KeepDeviations(committee, partition, ts).Ok?
    ensures |KeepDeviations(committee, partition, ts).value| <= |ts|
  {
    if ts != [] {
      assert ts[0] in ts;
      assert forall t | t in ts[1..] :: t in ts;
      KeepDeviationsOk(committee, partition, ts[1..]);
    }
  }

  /** A deviation is kept exactly when it is canonical and not inside the
      committee. */
  lemma {:induction false} KeepDeviationsMember(committee: seq<Alt>, partition: seq<seq<Alt>>, ts: seq<seq<Alt>>,
                                                t: seq<Alt>)
    requires forall u | u in ts :: IsWlog(u, partition).Ok?
    ensures KeepDeviations(committee, partition, ts).Ok?
    ensures t in KeepDeviations(committee, partition, ts).value <==>
            t in ts && IsWlog(t, partition) == Ok(true) && !(Elems(t) <= Elems(committee))
  {
    KeepDeviationsOk(committee, partition, ts);
    if ts != [] {
      assert ts[0] in ts;
      assert forall u | u in ts[1..] :: u in ts;
      KeepDeviationsMember(committee, partition, ts[1..], t);
      if t in ts && t != ts[0] {
        assert t in ts[1..];
      }
    }
  }

  // ---------------------------------------------------------------------------
  // Canonical choices

  /** A selection N is canonical for the identifiable sets: whenever an
      alternative b is selected, so is every smaller alternative of A that no
      identifiable set tells apart from b. */
  ghost predicate WlogChoice(A: seq<Alt>, sets: seq<set<Alt>>, selection: set<Alt>)
  {
    forall a, b | a in A && b in selection && a < b && Indistinguishable(a, b, sets) :: a in selection
  }

  /** On the partition of `range(num_alts)`, `is_wlog` never fails on a
      tuple of alternatives without repeats, and says whether it is canonical. */
  lemma IsWlogIsChoice(numAlts: nat, sets: seq<set<Alt>>, xs: seq<Alt>)
    requires NoDup(xs) && Elems(xs) <= Elems(Range(numAlts))
    ensures IsWlog(xs, WlogPartition(Range(numAlts), sets)) == Ok(WlogChoice(Range(numAlts), sets, Elems(xs)))
  {
    RangeFacts(numAlts);
    IsWlogOnWlogPartition(Range(numAlts), sets, xs);
  }

  // ---------------------------------------------------------------------------
  // What get_continuations returns

  /** The new committees of line 27: a sorted tuple of k alternatives that
      holds every past deviation, whose other members (the newcomers) come
      from A and are a canonical choice for the identifiable sets of the
      history. */
  ghost predicate ValidCommittee(numAlts: nat, k: nat, history: History, c: seq<Alt>)
  {
    var past := PastDeviations(history);
    Increasing(c) && |c| == k && past <= Elems(c) && Elems(c) - past <= Elems(Range(numAlts)) &&
    WlogChoice(Range(numAlts), IdentifiableSets(history), Elems(c) - past)
  }

  /** The deviations of lines 32-35 for a new committee c: a sorted tuple of
      1 to k alternatives of A, canonical for the identifiable sets together
      with c, that is not inside c. */
  ghost predicate ValidDeviation(numAlts: nat, k: nat, history: History, c: seq<Alt>, t: seq<Alt>)
  {
    Increasing(t) && 1 <= |t| <= k && Elems(t) <= Elems(Range(numAlts)) && !(Elems(t) <= Elems(c)) &&
    WlogChoice(Range(numAlts), SetsWith(history, c), Elems(t))
  }

  lemma CandidateFacts(numAlts: nat, k: nat, t: seq<Alt>)
    requires t in CombinationsOfSizes(Range(numAlts), 1, k + 1)
    ensures Increasing(t) && NoDup(t) && 1 <= |t| <= k && Elems(t) <= Elems(Range(numAlts))
  {
    RangeFacts(numAlts);
    CombinationsOfSizesSpec(Range(numAlts), 1, k + 1, t);
  }

  /** The deviation filter never fails and keeps at most k 2^num_alts tuples. */
  lemma DeviationsOk(numAlts: nat, k: nat, history: History, c: seq<Alt>)
    ensures Deviations(numAlts, k, history, c).Ok?
    ensures |Deviations(numAlts, k, history, c).value| <= k * Pow(2, numAlts)
  {
    var A := Range(numAlts);
    var ts := CombinationsOfSizes(A, 1, k + 1);
    forall t | t in ts ensures IsWlog(t, WlogPartition(A, SetsWith(history, c))).Ok? {
      CandidateFacts(numAlts, k, t);
      IsWlogIsChoice(numAlts, SetsWith(history, c), t);
    }
    KeepDeviationsOk(c, WlogPartition(A, SetsWith(history, c)), ts);
    CombinationsOfSizesCount(A, 1, k + 1);
  }

  /** The deviations kept for a committee are exactly the valid ones. */
  lemma DeviationsMember(numAlts: nat, k: nat, history: History, c: seq<Alt>, t: seq<Alt>)
    ensures Deviations(numAlts, k, history, c).Ok?
    ensures t in Deviations(numAlts, k, history, c).value <==> ValidDeviation(numAlts, k, history, c, t)
  {
    var A := Range(numAlts);
    var ts := CombinationsOfSizes(A, 1, k + 1);
    var P := WlogPartition(A, SetsWith(history, c));
    forall u | u in ts ensures IsWlog(u, P).Ok? {
      CandidateFacts(numAlts, k, u);
      IsWlogIsChoice(numAlts, SetsWith(history, c), u);
    }
    KeepDeviationsMember(c, P, ts, t);
    RangeFacts(numAlts);
    CombinationsOfSizesSpec(A, 1, k + 1, t);
    if t in ts {
      CandidateFacts(numAlts, k, t);
      IsWlogIsChoice(numAlts, SetsWith(history, c), t);
    }
  }

  lemma NewcomerFacts(R: set<Alt>, places: nat, n: seq<Alt>)
    requires n in Combinations(SortedElems(R), places)
    ensures Increasing(n) && NoDup(n) && |n| == places && Elems(n) <= R
  {
    SortedElemsSpec(R);
    CombinationsSpec(SortedElems(R), places, n);
  }

  lemma NewcomersMember(numAlts: nat, k: nat, history: History, n: seq<Alt>)
    requires |PastDeviations(history)| <= k && n in Newcomers(numAlts, k, history)
    ensures Increasing(n) && |n| == k - |PastDeviations(history)| && Elems(n) <= Remaining(numAlts, history)
  {
    var R, places := Remaining(numAlts, history), k - |PastDeviations(history)|;
    assert Newcomers(numAlts, k, history) == Combinations(SortedElems(R), places);
    NewcomerFacts(R, places, n);
  }

  /** `is_wlog` does not fail on any newcomer tuple. */
  lemma NewcomersWlogOk(numAlts: nat, k: nat, history: History)
    requires |PastDeviations(history)| <= k
    ensures forall n | n in Newcomers(numAlts, k, history) ::
              IsWlog(n, WlogPartition(Range(numAlts), IdentifiableSets(history))).Ok?
  {
    var R := Remaining(numAlts, history);
    var places := k - |PastDeviations(history)|;
    var ns := Combinations(SortedElems(R), places);
    assert Newcomers(numAlts, k, history) == ns;
    forall n | n in ns ensures IsWlog(n, WlogPartition(Range(numAlts), IdentifiableSets(history))).Ok? {
      NewcomerFacts(R, places, n);
      IsWlogIsChoice(numAlts, IdentifiableSets(history), n);
    }
  }

  /** The committee filter never fails and keeps at most 2^num_alts
      committees. */
  lemma NewCommitteesOk(numAlts: nat, k: nat, history: History)
    requires |PastDeviations(history)| <= k
    ensures NewCommittees(numAlts, k, history).Ok?
    ensures |NewCommittees(numAlts, k, history).value| <= Pow(2, numAlts)
  {
    var P := WlogPartition(Range(numAlts), IdentifiableSets(history));
    var ns := Newcomers(numAlts, k, history);
    NewcomersWlogOk(numAlts, k, history);
    KeepCommitteesOk(PastDeviations(history), P, ns);
    NewcomersCount(numAlts, k, history);
  }

  lemma NewcomersCount(numAlts: nat, k: nat, history: History)
    requires |PastDeviations(history)| <= k
    ensures |Newcomers(numAlts, k, history)| <= Pow(2, numAlts)
  {
    var R := Remaining(numAlts, history);
    var S := SortedElems(R);
    var places := k - |PastDeviations(history)|;
    assert Newcomers(numAlts, k, history) == Combinations(S, places);
    CombinationsCount(S, places);
    RemainingCard(numAlts, history);
    PowMonotone(2, |S|, numAlts);
  }

  lemma RemainingCard(numAlts: nat, history: History)
    ensures |SortedElems(Remaining(numAlts, history))| <= numAlts
  {
    var U := Elems(Range(numAlts));
    var R := U - PastDeviations(history);
    SortedElemsSpec(R);
    RangeCard(numAlts);
    SubsetCard(R, U);
  }

  lemma RangeCard(numAlts: nat)
    ensures |Elems(Range(numAlts))| == numAlts
  {
    RangeFacts(numAlts);
    NoDupCard(Range(numAlts));
  }

  /** A canonical newcomer tuple gives a valid committee. */
  lemma CommitteeOfNewcomers(numAlts: nat, k: nat, history: History, n: seq<Alt>)
    requires |PastDeviations(history)| <= k
    requires Increasing(n) && |n| == k - |PastDeviations(history)| && Elems(n) <= Remaining(numAlts, history)
    requires IsWlog(n, WlogPartition(Range(numAlts), IdentifiableSets(history))) == Ok(true)
    ensures ValidCommittee(numAlts, k, history, SortedElems(PastDeviations(history) + Elems(n)))
  {
    var past := PastDeviations(history);
    var N := Elems(n);
    IsWlogIsChoice(numAlts, IdentifiableSets(history), n);
    var c := SortedElems(past + N);
    SortedElemsSpec(past + N);
    assert past * N == {};
    assert (past + N) - past == N;
    NoDupCard(n);
    assert |past + N| == |past| + |N|;
  }

  /** A valid committee comes from its newcomers. */
  lemma NewcomersOfCommittee(numAlts: nat, k: nat, history: History, c: seq<Alt>)
    requires ValidCommittee(numAlts, k, history, c)
    ensures |PastDeviations(history)| <= k
    ensures var n := SortedElems(Elems(c) - PastDeviations(history));
      n in Newcomers(numAlts, k, history) &&
      IsWlog(n, WlogPartition(Range(numAlts), IdentifiableSets(history))) == Ok(true) &&
      c == SortedElems(PastDeviations(history) + Elems(n))
  {
    var past := PastDeviations(history);
    var n := SortedElems(Elems(c) - past);
    SplitCommittee(past, Elems(Range(numAlts)), k, c);
    NewcomersInclude(numAlts, k, history, n);
    IsWlogIsChoice(numAlts, IdentifiableSets(history), n);
  }

  /** A sorted committee holding the past deviations is the sorted union of
      the past deviations and its other members. */
  lemma SplitCommittee(past: set<Alt>, U: set<Alt>, k: nat, c: seq<Alt>)
    requires Increasing(c) && |c| == k && past <= Elems(c) && Elems(c) - past <= U
    ensures |past| <= k
    ensures var n := SortedElems(Elems(c) - past);
      Increasing(n) && |n| == k - |past| && Elems(n) == Elems(c) - past && Elems(n) <= U - past &&
      c == SortedElems(past + Elems(n))
  {
    var N := Elems(c) - past;
    SortedElemsSpec(N);
    SplitSize(past, c);
    RejoinCommittee(past, c, SortedElems(N));
  }

  lemma SplitSize(past: set<Alt>, c: seq<Alt>)
    requires Increasing(c) && past <= Elems(c)
    ensures |past| + |Elems(c) - past| == |c|
  {
    NoDupCard(c);
    assert Elems(c) == past + (Elems(c) - past);
  }

  lemma RejoinCommittee(past: set<Alt>, c: seq<Alt>, n: seq<Alt>)
    requires Increasing(c) && past <= Elems(c) && Elems(n) == Elems(c) - past
    ensures c == SortedElems(past + Elems(n))
  {
    assert past + Elems(n) == Elems(c);
    SortedElemsSpec(Elems(c));
    IncreasingUnique(c, SortedElems(Elems(c)));
  }

  lemma NewcomersInclude(numAlts: nat, k: nat, history: History, n: seq<Alt>)
    requires |PastDeviations(history)| <= k
    requires Increasing(n) && |n| == k - |PastDeviations(history)| && Elems(n) <= Remaining(numAlts, history)
    ensures n in Newcomers(numAlts, k, history)
  {
    var R, places := Remaining(numAlts, history), k - |PastDeviations(history)|;
    assert Newcomers(numAlts, k, history) == Combinations(SortedElems(R), places);
    SortedElemsSpec(R);
    CombinationsSpec(SortedElems(R), places, n);
  }

  /** The committees kept are exactly the valid ones. */
  lemma NewCommitteesMember(numAlts: nat, k: nat, history: History, c: seq<Alt>)
    requires |PastDeviations(history)| <= k
    ensures NewCommittees(numAlts, k, history).Ok?
    ensures c in NewCommittees(numAlts, k, history).value <==> ValidCommittee(numAlts, k, history, c)
  {
    var past := PastDeviations(history);
    var P := WlogPartition(Range(numAlts), IdentifiableSets(history));
    var ns := Newcomers(numAlts, k, history);
    NewcomersWlogOk(numAlts, k, history);
    KeepCommitteesMember(past, P, ns, c);
    if c in NewCommittees(numAlts, k, history).value {
      var n :| n in ns && IsWlog(n, P) == Ok(true) && c == SortedElems(past + Elems(n));
      NewcomersMember(numAlts, k, history, n);
      CommitteeOfNewcomers(numAlts, k, history, n);
    }
    if ValidCommittee(numAlts, k, history, c) {
      NewcomersOfCommittee(numAlts, k, history, c);
    }
  }

  // ---------------------------------------------------------------------------
  // The continuations of a history

  /** g is the history h followed by one more step. */
  ghost predicate OneStepAfter(h: History, g: History)
  {
    |g| == |h| + 1 && g[..|h|] == h
  }

  /** A step get_continuations may add to history: a valid new committee and
      a valid deviation from it. */
  ghost predicate ValidStep(numAlts: nat, k: nat, history: History, s: Step)
  {
    ValidCommittee(numAlts, k, history, s.committee) &&
    ValidDeviation(numAlts, k, history, s.committee, s.deviation)
  }

  lemma ExtendMember(history: History, c: seq<Alt>, ts: seq<seq<Alt>>, g: History)
    ensures g in Extend(history, c, ts) <==>
            OneStepAfter(history, g) && g[|history|].committee == c && g[|history|].deviation in ts
  {
    if OneStepAfter(history, g) && g[|history|].committee == c && g[|history|].deviation in ts {
      var i :| 0 <= i < |ts| && ts[i] == g[|history|].deviation;
      assert g == history + [Step(c, ts[i])];
    }
    if g in Extend(history, c, ts) {
      var i :| 0 <= i < |ts| && Extend(history, c, ts)[i] == g;
      assert g == history + [Step(c, ts[i])];
      assert g[..|history|] == history;
    }
  }

  /** The loop over the new committees never fails and adds at most
      k 2^num_alts histories per committee. */
  lemma {:induction false} ExtensionsOk(numAlts: nat, k: nat, history: History, committees: seq<seq<Alt>>)
    ensures Extensions(numAlts, k, history, committees).Ok?
    ensures |Extensions(numAlts, k, history, committees).value| <= |committees| * (k * Pow(2, numAlts))
  {
    if committees != [] {
      DeviationsOk(numAlts, k, history, committees[0]);
      ExtensionsOk(numAlts, k, history, committees[1..]);
      MulSucc(|committees| - 1, k * Pow(2, numAlts));
    }
  }

  /** The loop over the new committees yields exactly the history extended by
      one of the committees and one of its valid deviations. */
  lemma {:induction false} ExtensionsMember(numAlts: nat, k: nat, history: History, committees: seq<seq<Alt>>,
                                            g: History)
    ensures Extensions(numAlts, k, history, committees).Ok?
    ensures g in Extensions(numAlts, k, history, committees).value <==>
            OneStepAfter(history, g) && g[|history|].committee in committees &&
            ValidDeviation(numAlts, k, history, g[|history|].committee, g[|history|].deviation)
  {
    ExtensionsOk(numAlts, k, history, committees);
    if committees != [] {
      var c := committees[0];
      DeviationsOk(numAlts, k, history, c);
      var ts := Deviations(numAlts, k, history, c).value;
      ExtensionsMember(numAlts, k, history, committees[1..], g);
      ExtendMember(history, c, ts, g);
      assert committees == [c] + committees[1..];
      if OneStepAfter(history, g) {
        DeviationsMember(numAlts, k, history, c, g[|history|].deviation);
      }
    }
  }

  /** The number of continuations any history can have. */
  function Bound(numAlts: nat, k: nat): nat
  {
    Pow(2, numAlts) * (k * Pow(2, numAlts))
  }

  lemma CountBound(committees: nat, continuations: nat, p: nat, k: nat)
    requires committees <= p && continuations <= committees * (k * p)
    ensures continuations <= p * (k * p)
  {
    MulMonotone(committees, p, k * p);
  }

  lemma MulMonotone(a: nat, b: nat, p: nat)
    requires a <= b
    ensures a * p <= b * p
  {
  }

  /** `get_continuations` fails exactly when the past deviations already hold
      more than k alternatives, and then on `places_to_fill >= 0`. */
  lemma ContinuationsOk(numAlts: nat, k: nat, history: History)
    ensures Continuations(numAlts, k, history).Ok? <==> |PastDeviations(history)| <= k
    ensures Continuations(numAlts, k, history).Err? ==> Continuations(numAlts, k, history).error == NoPlacesLeft
  {
    if |PastDeviations(history)| <= k {
      NewCommitteesOk(numAlts, k, history);
      ExtensionsOk(numAlts, k, history, NewCommittees(numAlts, k, history).value);
    }
  }

  /** A history has at most Bound(num_alts, k) continuations. */
  lemma ContinuationsCount(numAlts: nat, k: nat, history: History)
    requires |PastDeviations(history)| <= k
    ensures Continuations(numAlts, k, history).Ok?
    ensures |Continuations(numAlts, k, history).value| <= Bound(numAlts, k)
  {
    NewCommitteesOk(numAlts, k, history);
    var committees := NewCommittees(numAlts, k, history).value;
    ExtensionsOk(numAlts, k, history, committees);
    assert Continuations(numAlts, k, history) == Extensions(numAlts, k, history, committees);
    CountBound(|committees|, |Extensions(numAlts, k, history, committees).value|, Pow(2, numAlts), k);
  }

  /** The continuations of a history are exactly the history followed by one
      valid step. */
  lemma ContinuationsMember(numAlts: nat, k: nat, history: History, g: History)
    requires |PastDeviations(history)| <= k
    ensures Continuations(numAlts, k, history).Ok?
    ensures g in Continuations(numAlts, k, history).value <==>
            OneStepAfter(history, g) && ValidStep(numAlts, k, history, g[|history|])
  {
    NewCommitteesOk(numAlts, k, history);
    var committees := NewCommittees(numAlts, k, history).value;
    ExtensionsMember(numAlts, k, history, committees, g);
    if OneStepAfter(history, g) {
      NewCommitteesMember(numAlts, k, history, g[|history|].committee);
    }
  }

  /** Every continuation is the history followed by one more step. */
  lemma ContinuationShape(numAlts: nat, k: nat, history: History, g: History)
    requires Continuations(numAlts, k, history).Ok? && g in Continuations(numAlts, k, history).value
    ensures OneStepAfter(history, g)
  {
    ContinuationsOk(numAlts, k, history);
    ContinuationsMember(numAlts, k, history, g);
  }

  /** The alternatives still free after a history. */
  function Potential(numAlts: nat, history: History): nat
  {
    |Remaining(numAlts, history)|
  }

  /** Every continuation uses up at least one more alternative: its deviation
      is not inside the committee, which holds all past deviations. */
  lemma PotentialShrinks(numAlts: nat, k: nat, history: History, g: History)
    ensures Continuations(numAlts, k, history).Ok? && g in Continuations(numAlts, k, history).value ==>
              Potential(numAlts, g) < Potential(numAlts, history)
  {
    if Continuations(numAlts, k, history).Ok? && g in Continuations(numAlts, k, history).value {
      ContinuationsOk(numAlts, k, history);
      ContinuationsMember(numAlts, k, history, g);
      StepShrinks(numAlts, k, history, g);
    }
  }

  lemma StepShrinks(numAlts: nat, k: nat, history: History, g: History)
    requires OneStepAfter(history, g) && ValidStep(numAlts, k, history, g[|history|])
    ensures Potential(numAlts, g) < Potential(numAlts, history)
  {
    var s := g[|history|];
    assert g == history + [s];
    PastDeviationsSnoc(history, s);
    FreshAlternative(Elems(Range(numAlts)), PastDeviations(history), Elems(s.committee), Elems(s.deviation));
  }

  lemma FreshAlternative(U: set<Alt>, past: set<Alt>, c: set<Alt>, t: set<Alt>)
    requires past <= c && t <= U && !(t <= c)
    ensures |U - (past + t)| < |U - past|
  {
    var x :| x in t && x !in c;
    assert (U - (past + t)) + {x} <= U - past;
    SubsetCard((U - (past + t)) + {x}, U - past);
  }

  // ---------------------------------------------------------------------------
  // run(k, info): the walk over the tree of histories

  /** The assertion `run` fails, with the popped history it fails on. */
  datatype RunFailure =
    | MissingHistory(history: History)                                    // `assert history in info`
    | ContinuationFailed(history: History, failure: ContinuationFailure)  // inside get_continuations
    | MissingContinuation(history: History, continuation: History)        // `assert new_history in info`
    | MissingCertificate(history: History, continuation: History)         // `assert "farkas" in info[new_history]`

  datatype Outcome = Complete | Incomplete(failure: RunFailure)

  /** The walk goes from p on to g: p has no certificate, and g is a
      continuation of p that the search found successful. */
  ghost predicate Expands(numAlts: nat, k: nat, info: map<History, Record>, p: History, g: History)
  {
    p in info && info[p].farkas.None? && Continuations(numAlts, k, p).Ok? &&
    g in Continuations(numAlts, k, p).value && g in info && info[g].successful
  }

  /** The histories `run` pops: every prefix of h leads on to the next one. */
  ghost predicate Explored(numAlts: nat, k: nat, info: map<History, Record>, h: History)
  {
    forall i | 0 <= i < |h| :: Expands(numAlts, k, info, h[..i], h[..i + 1])
  }

  /** What `run` checks of a popped history: it is in info, and unless it
      carries a certificate its continuations can be computed, are all in
      info, and each unsuccessful one carries a certificate. */
  ghost predicate Checked(numAlts: nat, k: nat, info: map<History, Record>, h: History)
  {
    h in info &&
    (info[h].farkas.None? ==>
       Continuations(numAlts, k, h).Ok? &&
       forall g | g in Continuations(numAlts, k, h).value :: g in info && (!info[g].successful ==> info[g].farkas.Some?))
  }

  /** The Farkas certificates are complete: every history the walk reaches
      passes its check. */
  ghost predicate Certified(numAlts: nat, k: nat, info: map<History, Record>)
  {
    forall h | Explored(numAlts, k, info, h) :: Checked(numAlts, k, info, h)
  }

  /** What a failure reports is so. */
  ghost predicate Fails(numAlts: nat, k: nat, info: map<History, Record>, f: RunFailure)
  {
    var h := f.history;
    match f
    case MissingHistory(_) => h !in info
    case ContinuationFailed(_, e) =>
      h in info && info[h].farkas.None? && Continuations(numAlts, k, h) == Err(e)
    case MissingContinuation(_, g) =>
      h in info && info[h].farkas.None? && Continuations(numAlts, k, h).Ok? &&
      g in Continuations(numAlts, k, h).value && g !in info
    case MissingCertificate(_, g) =>
      h in info && info[h].farkas.None? && Continuations(numAlts, k, h).Ok? &&
      g in Continuations(numAlts, k, h).value && g in info && !info[g].successful && info[g].farkas.None?
  }

  /** Some prefix of h still waits in the queue. */
  ghost predicate Pending(queue: seq<History>, h: History)
  {
    exists i | 0 <= i <= |h| :: h[..i] in queue
  }

  /** The termination measure: each queued history weighs
      (Bound + 1)^Potential, and a popped history is replaced by at most Bound
      lighter ones. */
  function Weight(numAlts: nat, k: nat, queue: seq<History>): nat
  {
    if queue == [] then 0
    else Weight(numAlts, k, queue[..|queue| - 1]) + Pow(Bound(numAlts, k) + 1, Potential(numAlts, queue[|queue| - 1]))
  }

  /** `run(k, info)`: succeeds exactly when the certificates are complete, and
      otherwise names a reached history whose check fails. */
  method Run(numAlts: nat, k: nat, info: map<History, Record>) returns (outcome: Outcome)
    ensures outcome.Complete? <==> Certified(numAlts, k, info)
    ensures outcome.Incomplete? ==>
              Explored(numAlts, k, info, outcome.failure.history) && Fails(numAlts, k, info, outcome.failure)
  {
    var queue: seq<History> := [[]];
    ghost var done: set<History> := {};
    StartCovered(numAlts, k, info);
    while queue != []
      invariant forall q | q in queue :: Explored(numAlts, k, info, q)
      invariant forall h | h in done :: Checked(numAlts, k, info, h)
      invariant forall h | Explored(numAlts, k, info, h) :: h in done || Pending(queue, h)
      decreases Weight(numAlts, k, queue)
    {
      var history := queue[|queue| - 1];
      ghost var before := queue;
      queue := queue[..|queue| - 1];
      assert before == queue + [history];
      var queue', failure := Visit(numAlts, k, info, queue, history, done);
      if failure.Some? {
        FailureRefutes(numAlts, k, info, failure.value);
        return Incomplete(failure.value);
      }
      done := done + {history};
      queue := queue';
    }
    AllChecked(numAlts, k, info, done);
    return Complete;
  }

  /** With the queue empty, every reached history has been checked. */
  lemma AllChecked(numAlts: nat, k: nat, info: map<History, Record>, done: set<History>)
    requires forall h | h in done :: Checked(numAlts, k, info, h)
    requires forall h | Explored(numAlts, k, info, h) :: h in done || Pending([], h)
    ensures Certified(numAlts, k, info)
  {
  }

  /** One round of the loop of lines 44-55 after `queue.pop()`. */
  method Visit(numAlts: nat, k: nat, info: map<History, Record>, queue: seq<History>, history: History,
               ghost done: set<History>)
    returns (queue': seq<History>, failure: Option<RunFailure>)
    requires forall q | q in queue + [history] :: Explored(numAlts, k, info, q)
    requires forall h | Explored(numAlts, k, info, h) :: h in done || Pending(queue + [history], h)
    ensures failure.Some? ==>
              Explored(numAlts, k, info, failure.value.history) && Fails(numAlts, k, info, failure.value)
    ensures failure.None? ==>
              Checked(numAlts, k, info, history) &&
              (forall q | q in queue' :: Explored(numAlts, k, info, q)) &&
              (forall h | Explored(numAlts, k, info, h) :: h in done + {history} || Pending(queue', h)) &&
              Weight(numAlts, k, queue') < Weight(numAlts, k, queue + [history])
  {
    assert Explored(numAlts, k, info, history);
    WeightSnoc(numAlts, k, queue, history);
    if history !in info {
      return queue, Some(MissingHistory(history));
    }
    if info[history].farkas.Some? {
      CoveredAfterVisit(numAlts, k, info, queue, history, [], queue, done);
      PowMonotone(Bound(numAlts, k) + 1, 0, Potential(numAlts, history));
      return queue, None;
    }
    var continuations := GetContinuations(numAlts, k, history);
    if continuations.Err? {
      return queue, Some(ContinuationFailed(history, continuations.error));
    }
    var conts := continuations.value;
    var failed: Option<RunFailure>;
    queue', failed := EnqueueContinuations(info, queue, history, conts);
    if failed.Some? {
      FaultFails(numAlts, k, info, history, conts, failed.value);
      return queue', failed;
    }
    VisitedExplored(numAlts, k, info, queue, history, conts);
    VisitedCovered(numAlts, k, info, queue, history, conts, done);
    VisitedWeight(numAlts, k, info, queue, history, conts);
    return queue', None;
  }

  /** Every continuation is in info, and each unsuccessful one carries a
      certificate. */
  predicate AllRecorded(info: map<History, Record>, conts: seq<History>)
  {
    forall g | g in conts :: g in info && (!info[g].successful ==> info[g].farkas.Some?)
  }

  /** The continuations `run` pushes, in order: the successful ones. */
  function Successful(info: map<History, Record>, conts: seq<History>): seq<History>
    requires forall g | g in conts :: g in info
  {
    if conts == [] then []
    else
      var last := conts[|conts| - 1];
      assert forall g | g in conts[..|conts| - 1] :: g in conts;
      Successful(info, conts[..|conts| - 1]) + (if info[last].successful then [last] else [])
  }

  /** The failure the inner loop reports is about one of the continuations. */
  predicate Fault(info: map<History, Record>, conts: seq<History>, f: RunFailure)
  {
    match f
    case MissingContinuation(_, g) => g in conts && g !in info
    case MissingCertificate(_, g) => g in conts && g in info && !info[g].successful && info[g].farkas.None?
    case _ => false
  }

  /** Lines 49-54 for one popped history without a certificate: push each
      successful continuation, and fail on one missing from info or
      unsuccessful without a certificate. */
  method EnqueueContinuations(info: map<History, Record>, queue: seq<History>, history: History,
                              conts: seq<History>)
    returns (queue': seq<History>, failure: Option<RunFailure>)
    ensures failure.None? <==> AllRecorded(info, conts)
    ensures failure.None? ==> queue' == queue + Successful(info, conts)
    ensures failure.Some? ==> failure.value.history == history && Fault(info, conts, failure.value)
    ensures failure.Some? ==>
              (failure.value.MissingContinuation? || failure.value.MissingCertificate?) &&
              exists j | 0 <= j < |conts| :: AllRecorded(info, conts[..j]) && conts[j] == failure.value.continuation
  {
    queue' := queue;
    for j := 0 to |conts|
      invariant AllRecorded(info, conts[..j])
      invariant queue' == queue + Successful(info, conts[..j])
    {
      var g := conts[j];
      assert conts[..j + 1] == conts[..j] + [g];
      if g !in info {
        return queue', Some(MissingContinuation(history, g));
      }
      assert conts[..j + 1][..j] == conts[..j];
      if info[g].successful {
        queue' := queue' + [g];
      } else if info[g].farkas.None? {
        return queue', Some(MissingCertificate(history, g));
      }
    }
    assert conts[..|conts|] == conts;
    return queue', None;
  }

  lemma FaultFails(numAlts: nat, k: nat, info: map<History, Record>, history: History, conts: seq<History>,
                   f: RunFailure)
    requires history in info && info[history].farkas.None? && Continuations(numAlts, k, history) == Ok(conts)
    requires f.history == history && Fault(info, conts, f)
    ensures Fails(numAlts, k, info, f)
  {
  }

  lemma {:induction false} SuccessfulMember(info: map<History, Record>, conts: seq<History>, g: History)
    requires forall h | h in conts :: h in info
    ensures g in Successful(info, conts) <==> g in conts && info[g].successful
  {
    if conts != [] {
      var init := conts[..|conts| - 1];
      assert conts == init + [conts[|conts| - 1]];
      SuccessfulMember(info, init, g);
    }
  }

  lemma {:induction false} SuccessfulWeight(numAlts: nat, k: nat, info: map<History, Record>, queue: seq<History>,
                                            conts: seq<History>, share: nat)
    requires forall h | h in conts :: h in info
    requires forall h | h in conts :: Pow(Bound(numAlts, k) + 1, Potential(numAlts, h)) <= share
    ensures Weight(numAlts, k, queue + Successful(info, conts)) <= Weight(numAlts, k, queue) + |conts| * share
  {
    if conts != [] {
      var init, last := conts[..|conts| - 1], conts[|conts| - 1];
      assert conts == init + [last];
      SuccessfulWeight(numAlts, k, info, queue, init, share);
      var pushed := Successful(info, init);
      var tail := if info[last].successful then [last] else [];
      assert Successful(info, conts) == pushed + tail;
      assert queue + (pushed + tail) == (queue + pushed) + tail;
      var added := if info[last].successful then Pow(Bound(numAlts, k) + 1, Potential(numAlts, last)) else 0;
      if info[last].successful {
        WeightSnoc(numAlts, k, queue + pushed, last);
      } else {
        assert (queue + pushed) + tail == queue + pushed;
      }
      assert last in conts;
      AddBound(Weight(numAlts, k, queue), Weight(numAlts, k, queue + pushed),
               Weight(numAlts, k, (queue + pushed) + tail), added, |init|, share);
    } else {
      assert queue + [] == queue;
    }
  }

  lemma AddBound(start: nat, before: nat, after: nat, added: nat, n: nat, share: nat)
    requires before <= start + n * share && after == before + added && added <= share
    ensures after <= start + (n + 1) * share
  {
    MulSucc(n, share);
  }

  /** The pushed continuations are reached. */
  lemma VisitedExplored(numAlts: nat, k: nat, info: map<History, Record>, queue: seq<History>, history: History,
                        conts: seq<History>)
    requires forall q | q in queue + [history] :: Explored(numAlts, k, info, q)
    requires history in info && info[history].farkas.None?
    requires Continuations(numAlts, k, history) == Ok(conts) && AllRecorded(info, conts)
    ensures forall q | q in queue + Successful(info, conts) :: Explored(numAlts, k, info, q)
  {
    assert Explored(numAlts, k, info, history);
    forall q | q in queue + Successful(info, conts) ensures Explored(numAlts, k, info, q) {
      if q !in queue {
        SuccessfulMember(info, conts, q);
        ExploredExtend(numAlts, k, info, history, q);
      }
    }
  }

  /** After the visit the popped history is checked, and every reached
      history is checked or still has a prefix in the queue. */
  lemma VisitedCovered(numAlts: nat, k: nat, info: map<History, Record>, queue: seq<History>, history: History,
                       conts: seq<History>, done: set<History>)
    requires forall h | Explored(numAlts, k, info, h) :: h in done || Pending(queue + [history], h)
    requires history in info && info[history].farkas.None?
    requires Continuations(numAlts, k, history) == Ok(conts) && AllRecorded(info, conts)
    ensures Checked(numAlts, k, info, history)
    ensures forall h | Explored(numAlts, k, info, h) ::
              h in done + {history} || Pending(queue + Successful(info, conts), h)
  {
    var queue' := queue + Successful(info, conts);
    forall g | g in conts && g in info && info[g].successful ensures g in queue' {
      SuccessfulMember(info, conts, g);
    }
    CoveredAfterVisit(numAlts, k, info, queue, history, conts, queue', done);
  }

  /** The visit makes the queue lighter. */
  lemma VisitedWeight(numAlts: nat, k: nat, info: map<History, Record>, queue: seq<History>, history: History,
                      conts: seq<History>)
    requires Continuations(numAlts, k, history) == Ok(conts) && AllRecorded(info, conts)
    ensures Weight(numAlts, k, queue + Successful(info, conts)) <
            Weight(numAlts, k, queue) + Pow(Bound(numAlts, k) + 1, Potential(numAlts, history))
  {
    ContinuationsOk(numAlts, k, history);
    ContinuationsCount(numAlts, k, history);
    var share := Share(numAlts, k, history);
    forall g | g in conts ensures Pow(Bound(numAlts, k) + 1, Potential(numAlts, g)) <= share {
      PotentialShrinks(numAlts, k, history, g);
      ShareBounds(numAlts, k, history, g);
    }
    SuccessfulWeight(numAlts, k, info, queue, conts, share);
    WeightDrops(numAlts, k, history, |conts|);
  }

  /** A history's share of the weight: what each of its continuations may
      weigh at most. */
  function Share(numAlts: nat, k: nat, history: History): nat
  {
    var p := Potential(numAlts, history);
    if p == 0 then 0 else Pow(Bound(numAlts, k) + 1, p - 1)
  }

  lemma ShareBounds(numAlts: nat, k: nat, history: History, g: History)
    requires Potential(numAlts, g) < Potential(numAlts, history)
    ensures Pow(Bound(numAlts, k) + 1, Potential(numAlts, g)) <= Share(numAlts, k, history)
  {
    PowMonotone(Bound(numAlts, k) + 1, Potential(numAlts, g), Potential(numAlts, history) - 1);
  }

  /** At most Bound continuations, each weighing at most the share, weigh
      less than their parent. */
  lemma WeightDrops(numAlts: nat, k: nat, history: History, count: nat)
    requires count <= Bound(numAlts, k)
    ensures count * Share(numAlts, k, history) < Pow(Bound(numAlts, k) + 1, Potential(numAlts, history))
  {
    var p := Potential(numAlts, history);
    var b := Bound(numAlts, k);
    if p == 0 {
      assert count * Share(numAlts, k, history) == 0;
    } else {
      var share := Pow(b + 1, p - 1);
      PowMonotone(b + 1, 0, p - 1);
      MulMonotone(count, b, share);
      MulSucc(b, share);
    }
  }

  lemma WeightSnoc(numAlts: nat, k: nat, queue: seq<History>, g: History)
    ensures Weight(numAlts, k, queue + [g]) ==
            Weight(numAlts, k, queue) + Pow(Bound(numAlts, k) + 1, Potential(numAlts, g))
  {
    assert (queue + [g])[..|queue|] == queue;
  }

  lemma StartCovered(numAlts: nat, k: nat, info: map<History, Record>)
    ensures forall h | Explored(numAlts, k, info, h) :: Pending([[]], h)
  {
    forall h | Explored(numAlts, k, info, h) ensures Pending([[]], h) {
      assert h[..0] == [];
    }
  }

  /** A successful continuation of a reached history is reached. */
  lemma ExploredExtend(numAlts: nat, k: nat, info: map<History, Record>, history: History, g: History)
    requires Explored(numAlts, k, info, history) && Expands(numAlts, k, info, history, g)
    ensures Explored(numAlts, k, info, g)
  {
    ContinuationShape(numAlts, k, history, g);
    forall i | 0 <= i < |g| ensures Expands(numAlts, k, info, g[..i], g[..i + 1]) {
      PrefixOfNext(history, g, i);
      if i < |history| {
        assert Expands(numAlts, k, info, history[..i], history[..i + 1]);
      }
    }
  }

  lemma PrefixOfNext(history: History, g: History, i: nat)
    requires OneStepAfter(history, g) && i < |g|
    ensures i < |history| ==> g[..i] == history[..i] && g[..i + 1] == history[..i + 1]
    ensures i == |history| ==> g[..i] == history && g[..i + 1] == g
  {
  }

  /** Once a popped history is checked, every reached history is checked or
      still has a prefix in the queue. */
  lemma CoveredAfterVisit(numAlts: nat, k: nat, info: map<History, Record>, base: seq<History>, history: History,
                          conts: seq<History>, queue: seq<History>, done: set<History>)
    requires forall h | Explored(numAlts, k, info, h) :: h in done || Pending(base + [history], h)
    requires forall q | q in base :: q in queue
    requires history in info
    requires info[history].farkas.None? ==>
               Continuations(numAlts, k, history) == Ok(conts) &&
               forall g | g in conts && g in info && info[g].successful :: g in queue
    ensures forall h | Explored(numAlts, k, info, h) :: h in done + {history} || Pending(queue, h)
  {
    forall h | Explored(numAlts, k, info, h) && h !in done ensures h == history || Pending(queue, h) {
      var i :| 0 <= i <= |h| && h[..i] in base + [history];
      if h[..i] in base {
        assert h[..i] in queue;
      } else if i < |h| {
        assert Expands(numAlts, k, info, h[..i], h[..i + 1]);
        assert h[..i + 1] in queue;
      } else {
        assert h == h[..i];
      }
    }
  }

  /** A reported failure shows that the certificates are not complete. */
  lemma FailureRefutes(numAlts: nat, k: nat, info: map<History, Record>, f: RunFailure)
    requires Explored(numAlts, k, info, f.history) && Fails(numAlts, k, info, f)
    ensures !Certified(numAlts, k, info)
  {
    assert !Checked(numAlts, k, info, f.history);
  }
}
