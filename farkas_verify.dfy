/** The Farkas certificate checker `check_farkas_for_history` of
    C_recursive_PAV_rule/farkas-verify-multiprocessing.py, in exact rational
    arithmetic (Dafny `real`). A raised exception is a `Fail` verdict. */
module FarkasVerify {
  import opened Collections
  import opened Committees
  import opened Histories

  datatype CheckFailure =
    | MissingBeta(time: nat, x: Alt, y: Alt)  // KeyError in `beta[history_time, x, y]` (line 35)
    | ZeroUtility                             // ZeroDivisionError in `Fraction(1, utility(...))` (line 38)
    | MissingGamma(time: nat)                 // KeyError in `gamma[history_time]` (lines 45 and 50)
    | NegativeLhs(ballot: seq<Alt>)           // `assert lhs >= 0` (line 48)
    | ZeroCommitteeSize                       // ZeroDivisionError in `Fraction(len(T), k)` (line 50)
    | ObjectiveTooLarge                       // the objective assertion (line 50)

  datatype Verdict = Pass | Fail(failure: CheckFailure)

  // ---------------------------------------------------------------------------
  // The checker as functions

  /** The change of lhs for the swap (x, y) with coefficient b (lines 35-41). */
  function SwapTerm(ballot: seq<Alt>, committee: seq<Alt>, b: real, x: Alt, y: Alt): Result<real, CheckFailure>
  {
    if b == 0.0 then Ok(0.0)
    else if x in ballot && y !in ballot then
      var u := Utility(ballot, committee);
      if u == 0 then Err(ZeroUtility) else Ok(Share(-b, u))
    else if x !in ballot && y in ballot then
      Ok(Share(b, Utility(ballot, committee) + 1))
    else Ok(0.0)
  }

  /** `b * Fraction(1, n)`. */
  function Share(b: real, n: nat): real
    requires n > 0
  {
    b * (1.0 / (n as real))
  }

  /** The beta terms of step t for the swaps `swaps`, added to lhs in order
      (lines 34-41). */
  function BetaTerms(t: nat, ballot: seq<Alt>, committee: seq<Alt>, beta: map<(nat, Alt, Alt), real>,
                     swaps: seq<(Alt, Alt)>, lhs: real): Result<real, CheckFailure>
  {
    if swaps == [] then Ok(lhs)
    else
      var x, y := swaps[0].0, swaps[0].1;
      if (t, x, y) !in beta then Err(MissingBeta(t, x, y))
      else
        match SwapTerm(ballot, committee, beta[(t, x, y)], x, y)
        case Err(e) => Err(e)
        case Ok(d) => BetaTerms(t, ballot, committee, beta, swaps[1..], lhs + d)
  }

  /** `utility(ballot, T) > utility(ballot, committee)`: the ballot prefers
      the deviation of the step. */
  predicate Prefers(ballot: seq<Alt>, step: Step)
  {
    Utility(ballot, step.deviation) > Utility(ballot, step.committee)
  }

  /** lhs for one ballot from history step t onwards (lines 30-46): the beta
      terms of each step, until the first step whose deviation the ballot
      prefers, where gamma of that step is subtracted and the walk stops. */
  function LhsFrom(A: seq<Alt>, ballot: seq<Alt>, history: History, beta: map<(nat, Alt, Alt), real>,
                   gamma: map<nat, real>, t: nat, lhs: real): Result<real, CheckFailure>
    decreases |history| - t
  {
    if t >= |history| then Ok(lhs)
    else
      var committee := history[t].committee;
      match BetaTerms(t, ballot, committee, beta, Swaps(A, committee), lhs)
      case Err(e) => Err(e)
      case Ok(after) =>
        if Prefers(ballot, history[t]) then
          if t in gamma then Ok(after - gamma[t]) else Err(MissingGamma(t))
        else LhsFrom(A, ballot, history, beta, gamma, t + 1, after)
  }

  /** The final lhs of one ballot, starting from alpha. */
  function BallotLhs(A: seq<Alt>, ballot: seq<Alt>, history: History, farkas: Certificate): Result<real, CheckFailure>
  {
    LhsFrom(A, ballot, history, farkas.beta, farkas.gamma, 0, farkas.alpha)
  }

  /** The outcome of `assert lhs >= 0` for one ballot. */
  function BallotVerdict(A: seq<Alt>, ballot: seq<Alt>, history: History, farkas: Certificate): Verdict
  {
    match BallotLhs(A, ballot, history, farkas)
    case Err(e) => Fail(e)
    case Ok(lhs) => if lhs >= 0.0 then Pass else Fail(NegativeLhs(ballot))
  }

  /** The ballot loop: the first ballot that fails decides the verdict. */
  function BallotsVerdict(A: seq<Alt>, ballots: seq<seq<Alt>>, history: History, farkas: Certificate): Verdict
  {
    if ballots == [] then Pass
    else
      match BallotVerdict(A, ballots[0], history, farkas)
      case Fail(e) => Fail(e)
      case Pass => BallotsVerdict(A, ballots[1..], history, farkas)
  }

  /** `sum(Fraction(len(T), k) * gamma[t] ...)` over the steps from t on,
      added to total (line 50). */
  function GammaSum(k: nat, history: History, gamma: map<nat, real>, t: nat, total: real): Result<real, CheckFailure>
    decreases |history| - t
  {
    if t >= |history| then Ok(total)
    else if k == 0 then Err(ZeroCommitteeSize)
    else if t !in gamma then Err(MissingGamma(t))
    else GammaSum(k, history, gamma, t + 1, total + GammaTerm(|history[t].deviation|, k, gamma[t]))
  }

  /** `Fraction(len(T), k) * gamma[t]`. */
  function GammaTerm(size: nat, k: nat, g: real): real
    requires k > 0
  {
    ((size as real) / (k as real)) * g
  }

  /** The outcome of the objective assertion of line 50. */
  function ObjectiveVerdict(k: nat, history: History, farkas: Certificate): Verdict
  {
    match GammaSum(k, history, farkas.gamma, 0, 0.0)
    case Err(e) => Fail(e)
    case Ok(s) => if farkas.alpha - s <= -1.0 then Pass else Fail(ObjectiveTooLarge)
  }

  /** The outcome of `check_farkas_for_history(A, ballots, k, history, farkas)`. */
  function FarkasVerdict(A: seq<Alt>, ballots: seq<seq<Alt>>, k: nat, history: History, farkas: Certificate): Verdict
  {
    match BallotsVerdict(A, ballots, history, farkas)
    case Fail(e) => Fail(e)
    case Pass => ObjectiveVerdict(k, history, farkas)
  }

  // ---------------------------------------------------------------------------
  // The checker as it runs

  /** The lhs loop of one ballot: history steps, and the swaps of each step. */
  method ComputeBallotLhs(A: seq<Alt>, ballot: seq<Alt>, history: History, farkas: Certificate)
    returns (r: Result<real, CheckFailure>)
    ensures r == BallotLhs(A, ballot, history, farkas)
  {
    var beta, gamma := farkas.beta, farkas.gamma;
    var ballotSet := Elems(ballot);
    var lhs := farkas.alpha;
    var t := 0;
    while t < |history|
      invariant t <= |history|
      invariant LhsFrom(A, ballot, history, beta, gamma, t, lhs) == BallotLhs(A, ballot, history, farkas)
      decreases |history| - t
    {
      var committee := history[t].committee;
      var T := history[t].deviation;
      var allSwaps := ComputeSwaps(A, committee);
      var betaTerms := AddBetaTerms(t, ballot, ballotSet, committee, beta, allSwaps, lhs);
      if betaTerms.Err? {
        LhsBetaFails(A, ballot, history, beta, gamma, t, lhs, betaTerms.error);
        return Err(betaTerms.error);
      }
      ghost var start := lhs;
      lhs := betaTerms.value;
      var uT := ComputeUtility(ballot, T);
      var uC := ComputeUtility(ballot, committee);
      LhsStep(A, ballot, history, beta, gamma, t, start, lhs);
      if uT > uC {
        if t !in gamma {
          return Err(MissingGamma(t));
        }
        assert Prefers(ballot, history[t]);
        return Ok(lhs - gamma[t]);
      }
      t := t + 1;
    }
    return Ok(lhs);
  }

  /** The swap loop of one history step (lines 34-41), adding to lhs. */
  method AddBetaTerms(t: nat, ballot: seq<Alt>, ballotSet: set<Alt>, committee: seq<Alt>,
                      beta: map<(nat, Alt, Alt), real>, allSwaps: seq<(Alt, Alt)>, start: real)
    returns (r: Result<real, CheckFailure>)
    requires ballotSet == Elems(ballot)
    ensures r == BetaTerms(t, ballot, committee, beta, allSwaps, start)
  {
    var lhs := start;
    for i := 0 to |allSwaps|
      invariant BetaTerms(t, ballot, committee, beta, allSwaps[i..], lhs) ==
                BetaTerms(t, ballot, committee, beta, allSwaps, start)
    {
      var x, y := allSwaps[i].0, allSwaps[i].1;
      if (t, x, y) !in beta {
        BetaTermsMissing(t, ballot, committee, beta, allSwaps, i, lhs);
        return Err(MissingBeta(t, x, y));
      }
      var coefficient := beta[(t, x, y)];
      var term := SwapContribution(ballot, ballotSet, committee, coefficient, x, y);
      BetaTermsNext(t, ballot, committee, beta, allSwaps, i, lhs);
      if term.Err? {
        return Err(term.error);
      }
      lhs := lhs + term.value;
    }
    assert allSwaps[|allSwaps|..] == [];
    return Ok(lhs);
  }

  /** The body of the swap loop (lines 35-41): what the swap (x, y) adds to lhs. */
  method SwapContribution(ballot: seq<Alt>, ballotSet: set<Alt>, committee: seq<Alt>, coefficient: real, x: Alt, y: Alt)
    returns (term: Result<real, CheckFailure>)
    requires ballotSet == Elems(ballot)
    ensures term == SwapTerm(ballot, committee, coefficient, x, y)
  {
    assert x in ballotSet <==> x in ballot;
    assert y in ballotSet <==> y in ballot;
    if coefficient == 0.0 {
      return Ok(0.0);
    }
    if x in ballotSet && y !in ballotSet {
      // x approved and y not: the share of -beta over the current utility
      var u := ComputeUtility(ballot, committee);
      if u == 0 {
        return Err(ZeroUtility);
      }
      return Ok(Share(-coefficient, u));
    }
    if x !in ballotSet && y in ballotSet {
      // y approved and x not: the share of beta over one more than the utility
      var u := ComputeUtility(ballot, committee);
      return Ok(Share(coefficient, u + 1));
    }
    return Ok(0.0);
  }

  lemma BetaTermsMissing(t: nat, ballot: seq<Alt>, committee: seq<Alt>, beta: map<(nat, Alt, Alt), real>,
                         swaps: seq<(Alt, Alt)>, i: nat, lhs: real)
    requires i < |swaps| && (t, swaps[i].0, swaps[i].1) !in beta
    ensures BetaTerms(t, ballot, committee, beta, swaps[i..], lhs) == Err(MissingBeta(t, swaps[i].0, swaps[i].1))
  {
    assert swaps[i..][0] == swaps[i];
  }

  lemma BetaTermsNext(t: nat, ballot: seq<Alt>, committee: seq<Alt>, beta: map<(nat, Alt, Alt), real>,
                      swaps: seq<(Alt, Alt)>, i: nat, lhs: real)
    requires i < |swaps| && (t, swaps[i].0, swaps[i].1) in beta
    ensures var x, y := swaps[i].0, swaps[i].1;
      var term := SwapTerm(ballot, committee, beta[(t, x, y)], x, y);
      BetaTerms(t, ballot, committee, beta, swaps[i..], lhs) ==
        if term.Err? then Err(term.error) else BetaTerms(t, ballot, committee, beta, swaps[i + 1..], lhs + term.value)
  {
    assert swaps[i..][0] == swaps[i] && swaps[i..][1..] == swaps[i + 1..];
  }

  lemma LhsBetaFails(A: seq<Alt>, ballot: seq<Alt>, history: History, beta: map<(nat, Alt, Alt), real>,
                     gamma: map<nat, real>, t: nat, lhs: real, e: CheckFailure)
    requires t < |history|
    requires var c := history[t].committee; BetaTerms(t, ballot, c, beta, Swaps(A, c), lhs) == Err(e)
    ensures LhsFrom(A, ballot, history, beta, gamma, t, lhs) == Err(e)
  {
  }

  lemma LhsStep(A: seq<Alt>, ballot: seq<Alt>, history: History, beta: map<(nat, Alt, Alt), real>,
                gamma: map<nat, real>, t: nat, lhs: real, after: real)
    requires t < |history|
    requires var c := history[t].committee; BetaTerms(t, ballot, c, beta, Swaps(A, c), lhs) == Ok(after)
    ensures LhsFrom(A, ballot, history, beta, gamma, t, lhs) ==
            if Prefers(ballot, history[t]) then
              if t in gamma then Ok(after - gamma[t]) else Err(MissingGamma(t))
            else LhsFrom(A, ballot, history, beta, gamma, t + 1, after)
  {
  }

  method CheckFarkasForHistory(A: seq<Alt>, ballots: seq<seq<Alt>>, k: nat, history: History, farkas: Certificate)
    returns (verdict: Verdict)
    ensures verdict == FarkasVerdict(A, ballots, k, history, farkas)
  {
    var alpha, gamma := farkas.alpha, farkas.gamma;
    for b := 0 to |ballots|
      invariant BallotsVerdict(A, ballots[b..], history, farkas) == BallotsVerdict(A, ballots, history, farkas)
    {
      var ballot := ballots[b];
      assert ballots[b..][0] == ballot && ballots[b..][1..] == ballots[b + 1..];
      var lhs := ComputeBallotLhs(A, ballot, history, farkas);
      if lhs.Err? {
        return Fail(lhs.error);
      }
      if !(lhs.value >= 0.0) {
        return Fail(NegativeLhs(ballot));
      }
    }
    assert ballots[|ballots|..] == [];
    var total := 0.0;
    for t := 0 to |history|
      invariant GammaSum(k, history, gamma, t, total) == GammaSum(k, history, gamma, 0, 0.0)
    {
      var T := history[t].deviation;
      if k == 0 {
        return Fail(ZeroCommitteeSize);
      }
      if t !in gamma {
        return Fail(MissingGamma(t));
      }
      var term := GammaTerm(|T|, k, gamma[t]);
      GammaSumNext(k, history, gamma, t, total);
      total := total + term;
    }
    if !(alpha - total <= -1.0) {
      return Fail(ObjectiveTooLarge);
    }
    return Pass;
  }

  lemma GammaSumNext(k: nat, history: History, gamma: map<nat, real>, t: nat, total: real)
    requires t < |history| && k > 0 && t in gamma
    ensures GammaSum(k, history, gamma, t, total) ==
            GammaSum(k, history, gamma, t + 1, total + GammaTerm(|history[t].deviation|, k, gamma[t]))
  {
  }

  /** `worker(args)`: true when the check completes; false stands for the
      exception the script would raise. */
  method Worker(A: seq<Alt>, ballots: seq<seq<Alt>>, k: nat, history: History, farkas: Certificate)
    returns (ok: bool)
    ensures ok <==> FarkasVerdict(A, ballots, k, history, farkas) == Pass
  {
    var verdict := CheckFarkasForHistory(A, ballots, k, history, farkas);
    ok := verdict == Pass;
  }

  // ---------------------------------------------------------------------------
  // What the checker computes

  /** The harmonic number H(r) = 1 + 1/2 + ... + 1/r, in exact arithmetic. */
  function Harmonic(r: nat): real
  {
    if r == 0 then 0.0 else Harmonic(r - 1) + 1.0 / (r as real)
  }

  /** The PAV score that a ballot gives a set of alternatives: the harmonic
      number of the number of approved members. */
  function PavScore(ballot: seq<Alt>, members: set<Alt>): real
  {
    Harmonic(Approved(ballot, members))
  }

  /** The number of distinct alternatives of the ballot that lie in members. */
  function Approved(ballot: seq<Alt>, members: set<Alt>): nat
  {
    if ballot == [] then 0
    else
      var init, a := ballot[..|ballot| - 1], ballot[|ballot| - 1];
      Approved(init, members) + (if a in members && a !in init then 1 else 0)
  }

  lemma {:induction false} ApprovedIsOverlap(ballot: seq<Alt>, members: set<Alt>)
    ensures Approved(ballot, members) == |Elems(ballot) * members|
  {
    if ballot != [] {
      var init, a := ballot[..|ballot| - 1], ballot[|ballot| - 1];
      assert ballot == init + [a];
      ApprovedIsOverlap(init, members);
      assert Elems(ballot) == Elems(init) + {a};
      assert a in init <==> a in Elems(init);
      OverlapInsert(Elems(init), members, a);
    }
  }

  /** The approval counts before and after a swap, in terms of the utility. */
  lemma SwapCounts(ballot: seq<Alt>, committee: seq<Alt>, x: Alt, y: Alt)
    requires NoDup(committee) && x in committee && y !in committee
    ensures Approved(ballot, Elems(committee)) == Utility(ballot, committee)
    ensures Approved(ballot, (Elems(committee) - {x}) + {y}) ==
              Utility(ballot, committee) - (if x in ballot then 1 else 0) + (if y in ballot then 1 else 0)
  {
    var B, C := Elems(ballot), Elems(committee);
    UtilityIsOverlap(ballot, committee);
    ApprovedIsOverlap(ballot, C);
    ApprovedIsOverlap(ballot, (C - {x}) + {y});
    assert x in C && y !in C;
    SwapOverlap(B, C, x, y);
  }

  /** How much the ballot's PAV score changes when x leaves the committee and
      y joins it. */
  function ScoreGain(ballot: seq<Alt>, committee: seq<Alt>, x: Alt, y: Alt): real
  {
    PavScore(ballot, (Elems(committee) - {x}) + {y}) - PavScore(ballot, Elems(committee))
  }

  /** The closed-form differences of lines 36-41 are harmonic differences: a
      swap term is its coefficient times the ballot's PAV score change, so for
      a real swap the division by the utility never fails. In particular a
      zero coefficient, or x and y both approved or both not approved, adds
      nothing. */
  lemma SwapTermIsScoreGain(ballot: seq<Alt>, committee: seq<Alt>, b: real, x: Alt, y: Alt)
    requires NoDup(committee) && x in committee && y !in committee
    ensures SwapTerm(ballot, committee, b, x, y) == Ok(WeightedGain(b, ballot, committee, x, y))
  {
    if b != 0.0 && x in ballot && y !in ballot {
      ScoreGainDown(ballot, committee, x, y);
      SwapTermLoses(ballot, committee, b, x, y);
      LossIsScaledGain(ballot, committee, b, x, y);
    } else if b != 0.0 && x !in ballot && y in ballot {
      var n := Utility(ballot, committee) + 1;
      ScoreGainUp(ballot, committee, x, y, n);
      SwapTermGains(ballot, committee, b, x, y, n);
      GainIsScaledGain(ballot, committee, b, x, y, n);
    } else {
      if b != 0.0 {
        ScoreGainNeutral(ballot, committee, x, y);
      }
      SwapTermNeutral(ballot, committee, b, x, y);
      NeutralIsScaledGain(ballot, committee, b, x, y);
    }
  }

  /** A swap whose member x the ballot approves has a committee member in
      the ballot, so the utility is at least 1 and line 38 divides safely. */
  lemma SwapTermLoses(ballot: seq<Alt>, committee: seq<Alt>, b: real, x: Alt, y: Alt)
    requires x in committee && b != 0.0 && x in ballot && y !in ballot
    ensures Utility(ballot, committee) >= 1
    ensures SwapTerm(ballot, committee, b, x, y) == Ok(Share(-b, Utility(ballot, committee)))
  {
    UtilityPositive(ballot, committee, x);
  }

  lemma SwapTermGains(ballot: seq<Alt>, committee: seq<Alt>, b: real, x: Alt, y: Alt, n: nat)
    requires b != 0.0 && x !in ballot && y in ballot && n == Utility(ballot, committee) + 1
    ensures SwapTerm(ballot, committee, b, x, y) == Ok(Share(b, n))
  {
  }

  lemma SwapTermNeutral(ballot: seq<Alt>, committee: seq<Alt>, b: real, x: Alt, y: Alt)
    requires b == 0.0 || (x in ballot <==> y in ballot)
    ensures SwapTerm(ballot, committee, b, x, y) == Ok(0.0)
  {
  }

  lemma LossIsScaledGain(ballot: seq<Alt>, committee: seq<Alt>, b: real, x: Alt, y: Alt)
    requires Utility(ballot, committee) >= 1
    requires ScoreGain(ballot, committee, x, y) == -(1.0 / (Utility(ballot, committee) as real))
    requires SwapTerm(ballot, committee, b, x, y) == Ok(Share(-b, Utility(ballot, committee)))
    ensures SwapTerm(ballot, committee, b, x, y) == Ok(WeightedGain(b, ballot, committee, x, y))
  {
    NegateShare(b, Utility(ballot, committee), ScoreGain(ballot, committee, x, y));
    assert WeightedGain(b, ballot, committee, x, y) == b * ScoreGain(ballot, committee, x, y);
  }

  lemma GainIsScaledGain(ballot: seq<Alt>, committee: seq<Alt>, b: real, x: Alt, y: Alt, n: nat)
    requires n > 0 && ScoreGain(ballot, committee, x, y) == 1.0 / (n as real)
    requires SwapTerm(ballot, committee, b, x, y) == Ok(Share(b, n))
    ensures SwapTerm(ballot, committee, b, x, y) == Ok(WeightedGain(b, ballot, committee, x, y))
  {
    ShareOf(b, n, ScoreGain(ballot, committee, x, y));
    assert WeightedGain(b, ballot, committee, x, y) == b * ScoreGain(ballot, committee, x, y);
  }

  lemma NeutralIsScaledGain(ballot: seq<Alt>, committee: seq<Alt>, b: real, x: Alt, y: Alt)
    requires b == 0.0 || ScoreGain(ballot, committee, x, y) == 0.0
    requires SwapTerm(ballot, committee, b, x, y) == Ok(0.0)
    ensures SwapTerm(ballot, committee, b, x, y) == Ok(WeightedGain(b, ballot, committee, x, y))
  {
    if b != 0.0 {
      Scale(b, ScoreGain(ballot, committee, x, y), 0.0);
    }
  }

  lemma Scale(b: real, p: real, q: real)
    requires p == q
    ensures b * p == b * q
  {
  }

  /** Losing an approved member: the ballot's utility u is at least 1 and its
      PAV score drops by 1/u. */
  lemma ScoreGainDown(ballot: seq<Alt>, committee: seq<Alt>, x: Alt, y: Alt)
    requires NoDup(committee) && x in committee && y !in committee
    requires x in ballot && y !in ballot
    ensures Utility(ballot, committee) >= 1
    ensures ScoreGain(ballot, committee, x, y) == -(1.0 / (Utility(ballot, committee) as real))
  {
    UtilityPositive(ballot, committee, x);
    SwapCounts(ballot, committee, x, y);
    HarmonicNextAt(Approved(ballot, (Elems(committee) - {x}) + {y}), Approved(ballot, Elems(committee)),
                   Utility(ballot, committee));
  }

  /** Gaining an approved member: the PAV score rises by 1/(u+1). */
  lemma ScoreGainUp(ballot: seq<Alt>, committee: seq<Alt>, x: Alt, y: Alt, n: nat)
    requires NoDup(committee) && x in committee && y !in committee
    requires x !in ballot && y in ballot && n == Utility(ballot, committee) + 1
    ensures ScoreGain(ballot, committee, x, y) == 1.0 / (n as real)
  {
    SwapCounts(ballot, committee, x, y);
    HarmonicNextAt(Approved(ballot, Elems(committee)), Approved(ballot, (Elems(committee) - {x}) + {y}), n);
  }

  /** Swapping two approved or two unapproved alternatives leaves the PAV
      score unchanged. */
  lemma ScoreGainNeutral(ballot: seq<Alt>, committee: seq<Alt>, x: Alt, y: Alt)
    requires NoDup(committee) && x in committee && y !in committee
    requires x in ballot <==> y in ballot
    ensures ScoreGain(ballot, committee, x, y) == 0.0
  {
    SwapCounts(ballot, committee, x, y);
    HarmonicSame(Approved(ballot, Elems(committee)), Approved(ballot, (Elems(committee) - {x}) + {y}));
  }

  lemma HarmonicNextAt(r: nat, s: nat, n: nat)
    requires s == r + 1 && n == s
    ensures Harmonic(s) - Harmonic(r) == 1.0 / (n as real)
  {
  }

  lemma HarmonicSame(r: nat, s: nat)
    requires r == s
    ensures Harmonic(s) == Harmonic(r)
  {
  }

  lemma ShareOf(b: real, n: nat, g: real)
    requires n > 0 && g == 1.0 / (n as real)
    ensures Share(b, n) == b * g
  {
  }

  lemma NegateShare(b: real, n: nat, g: real)
    requires n > 0 && g == -(1.0 / (n as real))
    ensures Share(-b, n) == b * g
  {
  }

  /** A beta weight times the PAV score change of a swap. */
  function WeightedGain(b: real, ballot: seq<Alt>, committee: seq<Alt>, x: Alt, y: Alt): real
  {
    b * ScoreGain(ballot, committee, x, y)
  }

  /** Every key `(t, x, y)` that the swap loop of step t reads. */
  ghost predicate BetaKeys(t: nat, beta: map<(nat, Alt, Alt), real>, swaps: seq<(Alt, Alt)>)
  {
    forall p | p in swaps :: (t, p.0, p.1) in beta
  }

  /** The beta part of a step: the sum of beta times the PAV score change
      over the swaps. */
  ghost function BetaSum(t: nat, ballot: seq<Alt>, committee: seq<Alt>, beta: map<(nat, Alt, Alt), real>,
                         swaps: seq<(Alt, Alt)>): real
    requires BetaKeys(t, beta, swaps)
  {
    if swaps == [] then 0.0
    else
      var x, y := swaps[0].0, swaps[0].1;
      WeightedGain(beta[(t, x, y)], ballot, committee, x, y) + BetaSum(t, ballot, committee, beta, swaps[1..])
  }

  /** The swap loop fails exactly when a beta key is missing, and then with
      MissingBeta. */
  lemma {:induction false} BetaTermsKeys(t: nat, ballot: seq<Alt>, committee: seq<Alt>,
                                         beta: map<(nat, Alt, Alt), real>, swaps: seq<(Alt, Alt)>, lhs: real)
    requires NoDup(committee)
    requires forall p | p in swaps :: p.0 in committee && p.1 !in committee
    ensures BetaTerms(t, ballot, committee, beta, swaps, lhs).Ok? <==> BetaKeys(t, beta, swaps)
    ensures BetaTerms(t, ballot, committee, beta, swaps, lhs).Err? ==>
              BetaTerms(t, ballot, committee, beta, swaps, lhs).error.MissingBeta?
    decreases |swaps|
  {
    if swaps != [] {
      var x, y := swaps[0].0, swaps[0].1;
      assert swaps[0] in swaps;
      BetaKeysCons(t, beta, swaps);
      if (t, x, y) in beta {
        var b := beta[(t, x, y)];
        var d := WeightedGain(b, ballot, committee, x, y);
        SwapTermIsScoreGain(ballot, committee, b, x, y);
        BetaTermsCons(t, ballot, committee, beta, swaps, lhs, x, y, d, lhs + d);
        BetaTermsKeys(t, ballot, committee, beta, swaps[1..], lhs + d);
      }
    }
  }

  /** With every beta key present, the swap loop adds the beta part to lhs. */
  lemma {:induction false} BetaTermsValue(t: nat, ballot: seq<Alt>, committee: seq<Alt>,
                                          beta: map<(nat, Alt, Alt), real>, swaps: seq<(Alt, Alt)>, lhs: real)
    requires NoDup(committee)
    requires forall p | p in swaps :: p.0 in committee && p.1 !in committee
    requires BetaKeys(t, beta, swaps)
    ensures BetaTerms(t, ballot, committee, beta, swaps, lhs) == Ok(lhs + BetaSum(t, ballot, committee, beta, swaps))
    decreases |swaps|
  {
    if swaps != [] {
      var x, y := swaps[0].0, swaps[0].1;
      assert swaps[0] in swaps;
      BetaKeysCons(t, beta, swaps);
      var b := beta[(t, x, y)];
      var d := WeightedGain(b, ballot, committee, x, y);
      var next := lhs + d;
      SwapTermIsScoreGain(ballot, committee, b, x, y);
      BetaTermsCons(t, ballot, committee, beta, swaps, lhs, x, y, d, next);
      BetaTermsValue(t, ballot, committee, beta, swaps[1..], next);
      var rest := BetaSum(t, ballot, committee, beta, swaps[1..]);
      BetaSumCons(t, ballot, committee, beta, swaps, d, rest);
      OkShift(BetaTerms(t, ballot, committee, beta, swaps, lhs), lhs, d, next, rest,
              BetaSum(t, ballot, committee, beta, swaps));
    }
  }

  lemma OkShift(r: Result<real, CheckFailure>, lhs: real, d: real, next: real, rest: real, total: real)
    requires next == lhs + d && r == Ok(next + rest) && total == d + rest
    ensures r == Ok(lhs + total)
  {
  }

  lemma BetaSumCons(t: nat, ballot: seq<Alt>, committee: seq<Alt>, beta: map<(nat, Alt, Alt), real>,
                    swaps: seq<(Alt, Alt)>, d: real, rest: real)
    requires swaps != [] && BetaKeys(t, beta, swaps) && BetaKeys(t, beta, swaps[1..])
    requires d == WeightedGain(beta[(t, swaps[0].0, swaps[0].1)], ballot, committee, swaps[0].0, swaps[0].1)
    requires rest == BetaSum(t, ballot, committee, beta, swaps[1..])
    ensures BetaSum(t, ballot, committee, beta, swaps) == d + rest
  {
  }

  lemma BetaKeysCons(t: nat, beta: map<(nat, Alt, Alt), real>, swaps: seq<(Alt, Alt)>)
    requires swaps != []
    ensures BetaKeys(t, beta, swaps) <==> (t, swaps[0].0, swaps[0].1) in beta && BetaKeys(t, beta, swaps[1..])
  {
    assert swaps[0] in swaps;
    assert forall p | p in swaps[1..] :: p in swaps;
    if (t, swaps[0].0, swaps[0].1) in beta && BetaKeys(t, beta, swaps[1..]) {
      forall p | p in swaps ensures (t, p.0, p.1) in beta {
        if p != swaps[0] {
          var i :| 0 <= i < |swaps| && swaps[i] == p;
          assert swaps[1..][i - 1] == p;
        }
      }
    }
  }

  /** One step of the swap loop on a present key whose term is v. */
  lemma BetaTermsCons(t: nat, ballot: seq<Alt>, committee: seq<Alt>, beta: map<(nat, Alt, Alt), real>,
                      swaps: seq<(Alt, Alt)>, lhs: real, x: Alt, y: Alt, v: real, next: real)
    requires swaps != [] && swaps[0] == (x, y) && (t, x, y) in beta
    requires SwapTerm(ballot, committee, beta[(t, x, y)], x, y) == Ok(v) && next == lhs + v
    ensures BetaTerms(t, ballot, committee, beta, swaps, lhs) == BetaTerms(t, ballot, committee, beta, swaps[1..], next)
  {
  }

  /** The swaps of a committee without repeats move a member out and an
      outsider in. */
  lemma SwapsMoveMember(A: seq<Alt>, committee: seq<Alt>)
    ensures forall p | p in Swaps(A, committee) :: p.0 in committee && p.1 !in committee
  {
    forall p | p in Swaps(A, committee) ensures p.0 in committee && p.1 !in committee {
      SwapsMember(A, committee, p.0, p.1);
    }
  }

  /** No committee of the history repeats an alternative, as for the tuples
      built from sets in farkas-check-complete.py. */
  ghost predicate DistinctCommittees(history: History)
  {
    forall t | 0 <= t < |history| :: NoDup(history[t].committee)
  }

  /** Every beta key of step s is present. */
  ghost predicate StepComplete(A: seq<Alt>, history: History, beta: map<(nat, Alt, Alt), real>, s: nat)
    requires s < |history|
  {
    BetaKeys(s, beta, Swaps(A, history[s].committee))
  }

  /** The beta part of step s for one ballot. */
  ghost function StepSum(A: seq<Alt>, ballot: seq<Alt>, history: History, beta: map<(nat, Alt, Alt), real>, s: nat): real
    requires s < |history| && StepComplete(A, history, beta, s)
  {
    var c := history[s].committee;
    BetaSum(s, ballot, c, beta, Swaps(A, c))
  }

  /** The beta parts of the steps from `from` up to (not including) `to`. */
  ghost function RowSum(A: seq<Alt>, ballot: seq<Alt>, history: History, beta: map<(nat, Alt, Alt), real>,
                        lo: nat, hi: nat): real
    requires lo <= hi <= |history|
    requires forall s | lo <= s < hi :: StepComplete(A, history, beta, s)
    decreases hi - lo
  {
    if lo == hi then 0.0
    else StepSum(A, ballot, history, beta, lo) + RowSum(A, ballot, history, beta, lo + 1, hi)
  }

  /** The first step from t on whose deviation the ballot prefers to the
      committee, or the length of the history when there is none. */
  ghost function FirstPreferred(ballot: seq<Alt>, history: History, t: nat): (n: nat)
    requires t <= |history|
    ensures t <= n <= |history|
    ensures forall s | t <= s < n :: !Prefers(ballot, history[s])
    ensures n < |history| ==> Prefers(ballot, history[n])
    decreases |history| - t
  {
    if t == |history| then t
    else if Prefers(ballot, history[t]) then t
    else FirstPreferred(ballot, history, t + 1)
  }

  /** The end of the steps that count for the ballot: up to and including the
      first preferred step. */
  ghost function ActiveEnd(ballot: seq<Alt>, history: History, t: nat): (e: nat)
    requires t <= |history|
    ensures t <= e <= |history|
  {
    var n := FirstPreferred(ballot, history, t);
    if n < |history| then n + 1 else n
  }

  /** The lhs of a ballot in closed form: the beta parts of the steps up to
      and including the first step whose deviation the ballot prefers, minus
      gamma of that one step; the steps after it contribute nothing. */
  lemma {:induction false} LhsValue(A: seq<Alt>, ballot: seq<Alt>, history: History,
                                    beta: map<(nat, Alt, Alt), real>, gamma: map<nat, real>, t: nat, lhs: real)
    requires t <= |history| && DistinctCommittees(history)
    requires forall s | t <= s < ActiveEnd(ballot, history, t) :: StepComplete(A, history, beta, s)
    requires FirstPreferred(ballot, history, t) < |history| ==> FirstPreferred(ballot, history, t) in gamma
    ensures var n := FirstPreferred(ballot, history, t);
      LhsFrom(A, ballot, history, beta, gamma, t, lhs) ==
        Ok(lhs + RowSum(A, ballot, history, beta, t, ActiveEnd(ballot, history, t))
               - (if n < |history| then gamma[n] else 0.0))
    decreases |history| - t
  {
    if t < |history| {
      var c := history[t].committee;
      var n := FirstPreferred(ballot, history, t);
      var e := ActiveEnd(ballot, history, t);
      assert t < e;
      assert StepComplete(A, history, beta, t);
      var step := StepSum(A, ballot, history, beta, t);
      var after := lhs + step;
      StepValue(A, ballot, history, beta, t, lhs, after);
      LhsStep(A, ballot, history, beta, gamma, t, lhs, after);
      var rest := RowSum(A, ballot, history, beta, t + 1, e);
      assert RowSum(A, ballot, history, beta, t, e) == step + rest;
      var g := if n < |history| then gamma[n] else 0.0;
      if Prefers(ballot, history[t]) {
        assert n == t && e == t + 1;
        assert rest == 0.0;
        OkShift(LhsFrom(A, ballot, history, beta, gamma, t, lhs), lhs, step, after, -g,
                RowSum(A, ballot, history, beta, t, e) - g);
      } else {
        assert FirstPreferred(ballot, history, t + 1) == n;
        assert ActiveEnd(ballot, history, t + 1) == e;
        LhsValue(A, ballot, history, beta, gamma, t + 1, after);
        OkShift(LhsFrom(A, ballot, history, beta, gamma, t, lhs), lhs, step, after, rest - g,
                RowSum(A, ballot, history, beta, t, e) - g);
      }
    }
  }

  /** The swap loop of a complete step adds the beta part of the step. */
  lemma StepValue(A: seq<Alt>, ballot: seq<Alt>, history: History, beta: map<(nat, Alt, Alt), real>,
                  t: nat, lhs: real, after: real)
    requires t < |history| && NoDup(history[t].committee) && StepComplete(A, history, beta, t)
    requires after == lhs + StepSum(A, ballot, history, beta, t)
    ensures var c := history[t].committee; BetaTerms(t, ballot, c, beta, Swaps(A, c), lhs) == Ok(after)
  {
    var c := history[t].committee;
    SwapsMoveMember(A, c);
    BetaTermsValue(t, ballot, c, beta, Swaps(A, c), lhs);
  }

  /** The ballot loop passes exactly when every ballot passes. */
  lemma {:induction false} BallotsPass(A: seq<Alt>, ballots: seq<seq<Alt>>, history: History, farkas: Certificate)
    ensures BallotsVerdict(A, ballots, history, farkas) == Pass <==>
            forall i | 0 <= i < |ballots| :: BallotVerdict(A, ballots[i], history, farkas) == Pass
  {
    if ballots != [] {
      BallotsPass(A, ballots[1..], history, farkas);
      assert forall i | 1 <= i < |ballots| :: ballots[1..][i - 1] == ballots[i];
    }
  }

  /** `sum(Fraction(len(T), k) * gamma[t] for ...)` over the steps from t on. */
  ghost function DualObjective(k: nat, history: History, gamma: map<nat, real>, t: nat): real
    requires t < |history| ==> k > 0
    requires forall s | t <= s < |history| :: s in gamma
    decreases |history| - t
  {
    if t >= |history| then 0.0
    else GammaTerm(|history[t].deviation|, k, gamma[t]) + DualObjective(k, history, gamma, t + 1)
  }

  /** The objective sum fails exactly when k is zero (for a nonempty history)
      or some gamma key is missing, and otherwise is the dual objective. */
  lemma {:induction false} GammaSumValue(k: nat, history: History, gamma: map<nat, real>, t: nat, total: real)
    requires t <= |history|
    ensures GammaSum(k, history, gamma, t, total).Ok? <==>
            (t < |history| ==> k > 0) && forall s | t <= s < |history| :: s in gamma
    ensures GammaSum(k, history, gamma, t, total).Err? ==>
            GammaSum(k, history, gamma, t, total).error == ZeroCommitteeSize ||
            GammaSum(k, history, gamma, t, total).error.MissingGamma?
    ensures (t < |history| ==> k > 0) && (forall s | t <= s < |history| :: s in gamma) ==>
            GammaSum(k, history, gamma, t, total) == Ok(total + DualObjective(k, history, gamma, t))
    decreases |history| - t
  {
    if t < |history| && k > 0 && t in gamma {
      GammaSumValue(k, history, gamma, t + 1, total + GammaTerm(|history[t].deviation|, k, gamma[t]));
    }
  }

  /** The certificate is accepted exactly when every ballot's lhs is a
      nonnegative value and alpha minus the dual objective is at most -1. */
  lemma FarkasPass(A: seq<Alt>, ballots: seq<seq<Alt>>, k: nat, history: History, farkas: Certificate)
    ensures FarkasVerdict(A, ballots, k, history, farkas) == Pass <==>
      (forall i | 0 <= i < |ballots| ::
         BallotLhs(A, ballots[i], history, farkas).Ok? && BallotLhs(A, ballots[i], history, farkas).value >= 0.0) &&
      (|history| > 0 ==> k > 0) && (forall s | 0 <= s < |history| :: s in farkas.gamma) &&
      farkas.alpha - DualObjective(k, history, farkas.gamma, 0) <= -1.0
  {
    BallotsPass(A, ballots, history, farkas);
    GammaSumValue(k, history, farkas.gamma, 0, 0.0);
  }
}
